/** The fork database: its operations as a state machine, and what every run keeps. */
module ForkDatabase {
  import opened ForkTree

  /** References into the container are ids here; the root block is kept apart from the index. */
  datatype State = State(root: Block, head: BlockId, index: Index)
  {
    predicate Has(x: BlockId) { x == root.id || x in index }

    function Get(x: BlockId): Block
      requires Has(x)
    {
      if x == root.id then root else index[x]
    }
  }

  datatype Fault =
    | UnlinkableBlock
    | DuplicateBlock
    | RemovesHead
    | NewRootMissing
    | NewRootNotValidated
    | NotInDatabase

  datatype Result = Done | Failed(fault: Fault)

  /** What every reachable state satisfies: a tree hanging off the root, and a head that is validated
      and not beaten by any validated block. */
  ghost predicate Inv(s: State) {
    && Tree(s)
    && s.root.validated
    && s.Has(s.head) && s.Get(s.head).validated
    && (forall x <- s.index :: s.index[x].validated ==> !Preferred(s.index[x], s.Get(s.head)))
  }

  ghost predicate Tree(s: State) {
    && s.root.id !in s.index
    && LinkedAll(s.index)
    && (forall x <- s.index :: s.Has(s.index[x].previous))
  }

  // ---- The operations ----

  function Reset(b: Block): State {
    State(b.(validated := true), b.id, map[])
  }

  function RolledBack(s: State): State {
    State(s.root, s.root.id, map x | x in s.index :: s.index[x].(validated := false))
  }

  ghost function Added(s: State, b: Block, ignoreDuplicate: bool): (State, Result) {
    if !s.Has(b.previous) then (s, Failed(UnlinkableBlock))
    else if b.id in s.index then (s, if ignoreDuplicate then Done else Failed(DuplicateBlock))
    else
      var index: Index := s.index[b.id := b];
      var best := First(index);
      (State(s.root, if index[best].validated then best else s.head, index), Done)
  }

  /** `b` is the block state handed in; the copy in the index is the one that changes. */
  ghost function MarkedValid(s: State, b: Block): (State, Result)
    requires s.Has(s.head)
  {
    if b.validated then (s, Done)
    else if b.id !in s.index then (s, Failed(NotInDatabase))
    else
      var index: Index := s.index[b.id := s.index[b.id].(validated := true)];
      var t, best := s.(index := index), First(index);
      (t.(head := if Preferred(index[best], t.Get(t.head)) then best else t.head), Done)
  }

  ghost function Removed(s: State, id: BlockId): (State, Result) {
    if Above(s.index, s.head, id) then (s, Failed(RemovesHead))
    else (s.(index := Pruned(s.index, id)), Done)
  }

  /** remove for each id in turn, stopping at the first that fails. */
  ghost function RemovedAll(s: State, ids: seq<BlockId>): (State, Result)
    decreases |ids|
  {
    if ids == [] then (s, Done)
    else
      var (t, r) := Removed(s, ids[0]);
      if r == Done then RemovedAll(t, ids[1..]) else (t, r)
  }

  /** The ids above `x`, nearest first, ending with the first one outside the index. */
  ghost function Ancestors(m: Index, x: BlockId): seq<BlockId>
    decreases x.num
  {
    if x in m && Linked(m[x]) then [m[x].previous] + Ancestors(m, m[x].previous) else []
  }

  /** A failing remove leaves the earlier removals in place, as the source does. */
  ghost function Advanced(s: State, id: BlockId): (State, Result) {
    if id !in s.index then (s, Failed(NewRootMissing))
    else if !s.index[id].validated then (s, Failed(NewRootNotValidated))
    else
      var (t, r) := RemovedAll(s.(index := s.index - {id}), Ancestors(s.index, id));
      if r == Done then (t.(root := s.index[id]), Done) else (t, r)
  }

  // ---- Every operation keeps the invariant ----

  /** Adding fails, changing nothing, for a missing parent, and else for a known block. */
  lemma {:induction false} AddedKeepsInv(s: State, b: Block, ignoreDuplicate: bool)
    requires Inv(s) && Linked(b)
    ensures Inv(Added(s, b, ignoreDuplicate).0)
    ensures b.id == s.root.id ==> Added(s, b, ignoreDuplicate).1 == Failed(UnlinkableBlock)
    ensures var (t, r) := Added(s, b, ignoreDuplicate);
            && (r == Failed(UnlinkableBlock) <==> !s.Has(b.previous)) && (r != Done ==> t == s)
            && (r == Failed(DuplicateBlock) <==> s.Has(b.previous) && b.id in s.index && !ignoreDuplicate)
  {
    BelowRoot(s);
    if s.Has(b.previous) && b.id !in s.index {
      var t := Added(s, b, ignoreDuplicate).0;
      assert t.root.id !in t.index;
      var best := First(t.index);
      if !t.index[best].validated {
        assert forall x <- t.index :: !t.index[x].validated;
      }
    }
  }

  /** Adding a block again changes nothing, and fails unless duplicates are to be ignored. */
  lemma {:induction false} AddedAgain(s: State, b: Block, first: bool, again: bool)
    requires Added(s, b, first).1 == Done
    ensures var t := Added(s, b, first).0;
            b.id in t.index && Added(t, b, again) == (t, if again then Done else Failed(DuplicateBlock))
  {
  }

  /** Every block of a tree is numbered above the root. */
  lemma {:induction false} BelowRoot(s: State)
    requires Tree(s)
    ensures forall x <- s.index :: x.num > s.root.id.num && Above(s.index, x, s.root.id)
  {
    forall x | x in s.index ensures x.num > s.root.id.num && Above(s.index, x, s.root.id) {
      ReachesRoot(s, x);
      AboveNum(s.index, x, s.root.id);
    }
  }

  lemma {:induction false} ReachesRoot(s: State, x: BlockId)
    requires Tree(s) && s.Has(x)
    ensures Above(s.index, x, s.root.id)
    decreases x.num
  {
    if x != s.root.id { ReachesRoot(s, s.index[x].previous); }
  }

  lemma {:induction false} MarkedValidKeepsInv(s: State, b: Block)
    requires Inv(s)
    ensures Inv(MarkedValid(s, b).0)
  {
    if !b.validated && b.id in s.index {
      var t := MarkedValid(s, b).0;
      var best := First(t.index);
      assert t.index[b.id].validated;
      assert t.index[best].validated;
    }
  }

  /** Rolling back leaves the root as the head and no other block validated, and loses no block. */
  lemma {:induction false} RolledBackKeepsInv(s: State)
    requires Inv(s)
    ensures var t := RolledBack(s);
            && Inv(t) && t.root == s.root && t.head == s.root.id && t.index.Keys == s.index.Keys
            && forall x <- s.index ::
                 !t.index[x].validated && t.index[x].(validated := s.index[x].validated) == s.index[x]
  {
    var t := RolledBack(s);
    assert forall x <- t.index :: t.index[x].previous == s.index[x].previous;
  }

  lemma {:induction false} RemovedKeepsInv(s: State, id: BlockId)
    requires Inv(s)
    ensures Inv(Removed(s, id).0)
  {
  }

  // ---- advance_root ----

  /** Taking out `id` cuts exactly the paths that run through it. */
  lemma {:induction false} AboveCut(m: Index, id: BlockId, x: BlockId, a: BlockId)
    requires LinkedAll(m)
    ensures Above(m - {id}, x, a) <==>
            Above(m, x, a) && (Above(m, x, id) ==> Above(m, a, id))
    decreases x.num
  {
    if x == a {
    } else if x == id {
      if Above(m, x, a) && Above(m, a, id) {
        AboveNum(m, x, a);
        AboveNum(m, a, id);
      }
    } else if x in m {
      AboveCut(m, id, m[x].previous, a);
    }
  }

  /** A list of ids each of which lies below the next, ending in `r`. */
  ghost predicate Climbing(m: Index, ids: seq<BlockId>, r: BlockId) {
    && ids != [] && ids[|ids| - 1] == r
    && (forall i :: 0 <= i < |ids| ==> Above(m, ids[i], r))
    && (forall i, j :: 0 <= i < j < |ids| ==> ids[i].num > ids[j].num)
  }

  /** Removing such a list has the effect of removing its last id. */
  lemma {:induction false} RemovedAllExact(s: State, ids: seq<BlockId>, r: BlockId)
    requires LinkedAll(s.index) && Climbing(s.index, ids, r)
    ensures RemovedAll(s, ids).1 == if Above(s.index, s.head, r) then Failed(RemovesHead) else Done
    ensures RemovedAll(s, ids).1 == Done ==> RemovedAll(s, ids).0 == s.(index := Pruned(s.index, r))
    decreases |ids|
  {
    var a, rest := ids[0], ids[1..];
    if Above(s.index, s.head, a) {
      AboveTrans(s.index, s.head, a, r);
    } else if rest == [] {
      assert RemovedAll(Removed(s, a).0, rest).1 == Done;
    } else {
      var t := Removed(s, a).0;
      forall i | 0 <= i < |rest| ensures Above(t.index, rest[i], r) {
        if Above(s.index, rest[i], a) { AboveNum(s.index, rest[i], a); }
        AbovePruned(s.index, a, rest[i], r);
      }
      RemovedAllExact(t, rest, r);
      AbovePruned(s.index, a, s.head, r);
      PrunedTwice(s.index, a, r);
    }
  }

  lemma {:induction false} AncestorsClimb(s: State, x: BlockId)
    requires Tree(s) && x in s.index
    ensures Climbing(s.index, Ancestors(s.index, x), s.root.id)
    ensures forall a <- Ancestors(s.index, x) :: a.num < x.num
    decreases x.num
  {
    var p := s.index[x].previous;
    ReachesRoot(s, p);
    if p != s.root.id { AncestorsClimb(s, p); }
  }

  /** The blocks built on `id`. */
  ghost function Descendants(m: Index, id: BlockId): Index {
    map x | x in m && x != id && Above(m, x, id) :: m[x]
  }

  /** advance_root succeeds exactly when the new root is a validated block of the database that the
      head is or descends from; then precisely its descendants remain. */
  lemma {:induction false} AdvancedExact(s: State, id: BlockId)
    requires Inv(s)
    ensures var (t, r) := Advanced(s, id);
            && (r == Done <==> id in s.index && s.index[id].validated && Above(s.index, s.head, id))
            && (r == Done ==> t == State(s.index[id], s.head, Descendants(s.index, id)) && Inv(t))
  {
    if id in s.index && s.index[id].validated {
      CutClimbs(s, id);
      RemovedAllExact(s.(index := s.index - {id}), Ancestors(s.index, id), s.root.id);
      CutSeparates(s, id, s.head);
      CutKeeps(s, id);
      if Above(s.index, s.head, id) { AdvancedInv(s, id); }
    }
  }

  lemma {:induction false} CutClimbs(s: State, id: BlockId)
    requires Tree(s) && id in s.index
    ensures Climbing(s.index - {id}, Ancestors(s.index, id), s.root.id)
  {
    var m, ids := s.index, Ancestors(s.index, id);
    AncestorsClimb(s, id);
    forall i | 0 <= i < |ids| ensures Above(m - {id}, ids[i], s.root.id) {
      assert ids[i] in ids;
      AboveCut(m, id, ids[i], s.root.id);
      if Above(m, ids[i], id) { AboveNum(m, ids[i], id); }
    }
  }

  /** Without `id`, a block still reaches the root exactly when it is not built on `id`. */
  lemma {:induction false} CutSeparates(s: State, id: BlockId, x: BlockId)
    requires Tree(s) && id in s.index && s.Has(x)
    ensures Above(s.index - {id}, x, s.root.id) <==> !Above(s.index, x, id)
  {
    AboveCut(s.index, id, x, s.root.id);
    ReachesRoot(s, x);
    RootNotAbove(s, id);
  }

  lemma {:induction false} CutKeeps(s: State, id: BlockId)
    requires Tree(s) && id in s.index
    ensures Pruned(s.index - {id}, s.root.id) == Descendants(s.index, id)
  {
    forall x | x in s.index ensures x in Pruned(s.index - {id}, s.root.id) <==> x in Descendants(s.index, id) {
      CutSeparates(s, id, x);
    }
  }

  lemma {:induction false} RootNotAbove(s: State, id: BlockId)
    requires Tree(s) && id in s.index
    ensures !Above(s.index, s.root.id, id)
  {
  }

  lemma {:induction false} AdvancedInv(s: State, id: BlockId)
    requires Inv(s) && id in s.index && s.index[id].validated && Above(s.index, s.head, id)
    ensures Inv(State(s.index[id], s.head, Descendants(s.index, id)))
  {
    var t := State(s.index[id], s.head, Descendants(s.index, id));
    forall x | x in t.index ensures t.Has(t.index[x].previous) {
      assert Above(s.index, s.index[x].previous, id);
      RootNotAbove(s, id);
    }
    RootNotAbove(s, id);
  }

  /** Advancing to `id` fails with the block already gone and others built on it. */
  ghost predicate Orphans(s: State, id: BlockId) {
    && id in s.index && s.index[id].validated && !Above(s.index, s.head, id)
    && exists x :: x in s.index && s.index[x].previous == id
  }

  /** When advance_root gives up because the head is elsewhere, the new root is already gone: the
      invariant is lost exactly when something was built on that block. */
  lemma {:induction false} AdvancedKeepsInv(s: State, id: BlockId)
    requires Inv(s)
    ensures Inv(Advanced(s, id).0) <==> !Orphans(s, id)
  {
    AdvancedExact(s, id);
    if id in s.index && s.index[id].validated && !Above(s.index, s.head, id) {
      FailedAdvanceOrphans(s, id);
      RemovedAllShrinks(s.(index := s.index - {id}), Ancestors(s.index, id));
    }
  }

  lemma {:induction false} FailedAdvanceOrphans(s: State, id: BlockId)
    requires Inv(s) && id in s.index && s.index[id].validated && !Above(s.index, s.head, id)
    ensures Tree(Advanced(s, id).0) <==> !Orphans(s, id)
  {
    AdvancedExact(s, id);
    var u, ids := s.(index := s.index - {id}), Ancestors(s.index, id);
    RemovedAllShrinks(u, ids);
    if x :| x in s.index && s.index[x].previous == id {
      assert Above(s.index, s.index[x].previous, id);
      AncestorsClimb(s, id);
      forall a | a in ids ensures !Above(u.index, x, a) {
        AboveCut(s.index, id, x, a);
        if Above(s.index, a, id) { AboveNum(s.index, a, id); }
      }
      RemovedAllSpares(u, ids, x);
      assert !Advanced(s, id).0.Has(id);
    } else {
      assert Tree(u);
      RemovedAllKeepsTree(u, ids);
    }
  }

  /** Removing takes blocks away, never the head, and changes none. */
  lemma {:induction false} RemovedAllShrinks(s: State, ids: seq<BlockId>)
    ensures var t := RemovedAll(s, ids).0;
            && t.root == s.root && t.head == s.head && (s.head in s.index ==> s.head in t.index)
            && (forall x <- t.index :: x in s.index && t.index[x] == s.index[x])
    decreases |ids|
  {
    if ids != [] && Removed(s, ids[0]).1 == Done { RemovedAllShrinks(Removed(s, ids[0]).0, ids[1..]); }
  }

  lemma {:induction false} RemovedAllSpares(s: State, ids: seq<BlockId>, x: BlockId)
    requires LinkedAll(s.index) && x in s.index && forall a <- ids :: !Above(s.index, x, a)
    ensures var t := RemovedAll(s, ids).0; x in t.index && t.index[x] == s.index[x]
    decreases |ids|
  {
    if ids != [] && Removed(s, ids[0]).1 == Done {
      forall a | a in ids[1..] ensures !Above(Pruned(s.index, ids[0]), x, a) {
        assert ids[0] in ids && a in ids;
        AbovePruned(s.index, ids[0], x, a);
      }
      RemovedAllSpares(Removed(s, ids[0]).0, ids[1..], x);
    }
  }

  lemma {:induction false} RemovedAllKeepsTree(s: State, ids: seq<BlockId>)
    requires Tree(s)
    ensures Tree(RemovedAll(s, ids).0)
    decreases |ids|
  {
    if ids != [] && Removed(s, ids[0]).1 == Done { RemovedAllKeepsTree(Removed(s, ids[0]).0, ids[1..]); }
  }

  // ---- Runs ----

  datatype Op =
    | DoReset(root: Block)
    | DoRollback
    | DoAdd(block: Block, ignoreDuplicate: bool)
    | DoMarkValid(state: Block)
    | DoRemove(id: BlockId)
    | DoAdvance(id: BlockId)

  ghost function Perform(s: State, op: Op): (State, Result)
    requires s.Has(s.head)
  {
    match op
    case DoReset(root) => (Reset(root), Done)
    case DoRollback => (RolledBack(s), Done)
    case DoAdd(b, dup) => Added(s, b, dup)
    case DoMarkValid(b) => MarkedValid(s, b)
    case DoRemove(id) => Removed(s, id)
    case DoAdvance(id) => Advanced(s, id)
  }

  /** What callers owe: added blocks have computed ids, and the root is not moved to a block off the
      head's branch that others are built on.  Every other misuse is caught by the operations. */
  ghost predicate Proper(s: State, op: Op) {
    match op
    case DoAdd(b, _) => Linked(b)
    case DoAdvance(id) => !Orphans(s, id)
    case _ => true
  }

  /** One operation keeps the invariant, failing or not, exactly when it orphans no block. */
  lemma {:induction false} PerformKeepsInv(s: State, op: Op)
    requires Inv(s) && (op.DoAdd? ==> Linked(op.block))
    ensures Inv(Perform(s, op).0) <==> !(op.DoAdvance? && Orphans(s, op.id))
  {
    match op
    case DoReset(root) =>
    case DoRollback => RolledBackKeepsInv(s);
    case DoAdd(b, dup) => AddedKeepsInv(s, b, dup);
    case DoMarkValid(b) => MarkedValidKeepsInv(s, b);
    case DoRemove(id) => RemovedKeepsInv(s, id);
    case DoAdvance(id) => AdvancedKeepsInv(s, id);
  }

  /** A run: states and operations, each state following from the one before. */
  ghost predicate IsRun(states: seq<State>, ops: seq<Op>) {
    && |states| == |ops| + 1
    && (exists b: Block :: states[0] == Reset(b))
    && (forall i :: 0 <= i < |ops| ==> IsStep(states[i], ops[i], states[i+1]))
  }

  ghost predicate IsStep(s: State, op: Op, t: State) {
    s.Has(s.head) && Proper(s, op) && t == Perform(s, op).0
  }

  /** Safety over whole runs, failing operations included. */
  lemma {:induction false} RunKeepsInv(states: seq<State>, ops: seq<Op>, k: nat)
    requires IsRun(states, ops) && k < |states|
    ensures Inv(states[k])
  {
    if k > 0 {
      RunKeepsInv(states, ops, k - 1);
      assert IsStep(states[k-1], ops[k-1], states[k]);
      PerformKeepsInv(states[k-1], ops[k-1]);
    }
  }

  // ---- The head ----

  ghost function Unvalidated(m: Index): Index {
    map x | x in m && !m[x].validated :: m[x]
  }

  ghost function PendingHead(s: State): BlockId
    requires s.Has(s.head)
  {
    var pending := Unvalidated(s.index);
    if pending != map[] && Preferred(s.index[First(pending)], s.Get(s.head)) then First(pending) else s.head
  }

  /** No block at all, validated or not, beats the pending head. */
  lemma {:induction false} PendingHeadIsBest(s: State)
    requires Inv(s)
    ensures s.Has(PendingHead(s))
    ensures forall x <- s.index :: !Preferred(s.index[x], s.Get(PendingHead(s)))
  {
    var pending := Unvalidated(s.index);
    forall x | x in s.index ensures !Preferred(s.index[x], s.Get(PendingHead(s))) {
      if !s.index[x].validated { assert x in pending; }
    }
  }

  lemma {:induction false} BestIsValidated(m: Index, x: BlockId)
    requires x in m && m[x].validated
    ensures m[First(m)].validated && forall y <- m :: m[y].validated ==> !Preferred(m[y], m[First(m)])
  {
  }

  /** `b`, added on the head and marked valid, is preferred to every other validated block. */
  ghost predicate Leads(s: State, b: Block) {
    forall x <- s.index :: s.index[x].validated ==> Preferred(b, s.index[x])
  }

  ghost predicate SomeValidated(m: Index) { exists x :: x in m && m[x].validated }

  lemma {:induction false} FirstIsNew(s: State, b: Block, m: Index)
    requires b.id !in s.index && m == s.index[b.id := b.(validated := true)]
    ensures Leads(s, b) ==> First(m) == b.id
    ensures First(m) == b.id ==> forall x <- s.index :: s.index[x].validated ==> !Preferred(s.index[x], b)
  {
    if Leads(s, b) { FirstUnique(m, b.id); }
  }

  /** A block that is added on the head and marked valid becomes the head, as the controller asserts,
      exactly when it does not claim an older irreversible block than the head; or when the head is the
      root, and adding has moved it to a validated block that the new one is preferred to. */
  lemma {:induction false} CommitBecomesHead(s: State, b: Block)
    requires Inv(s) && Linked(b) && b.previous == s.head && b.id !in s.index && !b.validated
    ensures var u := MarkedValid(Added(s, b, false).0, b).0;
            u.head == b.id <==>
            b.lib >= s.Get(s.head).lib || (s.head == s.root.id && SomeValidated(s.index) && Leads(s, b))
  {
    AddedKeepsInv(s, b, false);
    var t := Added(s, b, false).0;
    HeadAfterAdd(s, b);
    HeadAfterMark(s, t, b);
    LeadsHead(s, t, b);
  }

  /** What marking the new block valid does to the head. */
  lemma {:induction false} HeadAfterMark(s: State, t: State, b: Block)
    requires Inv(t) && b.id !in s.index && !b.validated && t.index == s.index[b.id := b] && t.head != b.id
    ensures MarkedValid(t, b).0.head == b.id <==>
            First(t.index[b.id := b.(validated := true)]) == b.id && Preferred(b, t.Get(t.head))
  {
  }

  lemma {:induction false} LeadsHead(s: State, t: State, b: Block)
    requires Inv(s) && Inv(t) && Linked(b) && b.previous == s.head && b.id !in s.index && !b.validated
    requires t.root == s.root && t.index == s.index[b.id := b] && SettledHead(s, t)
    ensures First(t.index[b.id := b.(validated := true)]) == b.id && Preferred(b, t.Get(t.head)) <==>
            b.lib >= s.Get(s.head).lib || (s.head == s.root.id && SomeValidated(s.index) && Leads(s, b))
  {
    BelowRoot(s);
    FirstIsNew(s, b, t.index[b.id := b.(validated := true)]);
    assert s.head in s.index ==> SomeValidated(s.index);
  }

  /** After adding, the head is a best validated block of the index, if there is one. */
  ghost predicate SettledHead(s: State, t: State) {
    if SomeValidated(s.index) then
      && t.head in s.index && s.index[t.head].validated
      && (forall x <- s.index :: s.index[x].validated ==> !Preferred(s.index[x], s.index[t.head]))
    else t.head == s.head
  }

  /** Where an unvalidated block's being added leaves the head. */
  lemma {:induction false} HeadAfterAdd(s: State, b: Block)
    requires Inv(s) && Linked(b) && s.Has(b.previous) && b.id !in s.index && !b.validated
    ensures SettledHead(s, Added(s, b, false).0)
  {
    var t := Added(s, b, false).0;
    if x :| x in s.index && s.index[x].validated {
      assert t.index[x] == s.index[x];
      BestIsValidated(t.index, x);
    }
  }

  /** Adding makes the head worse exactly when the head is the root and every validated block in the index
      claims an older irreversible block than the root, while there is one. */
  lemma {:induction false} AddLowersHead(s: State, b: Block, ignoreDuplicate: bool)
    requires Inv(s) && Linked(b)
    ensures var (t, r) := Added(s, b, ignoreDuplicate);
            t.Has(t.head) &&
            (Preferred(s.Get(s.head), t.Get(t.head)) <==>
              && s.Has(b.previous) && b.id !in s.index && s.head == s.root.id && SomeValidated(t.index)
              && forall x <- t.index :: t.index[x].validated ==> t.index[x].lib < s.root.lib)
  {
    AddedKeepsInv(s, b, ignoreDuplicate);
    BelowRoot(s);
    if s.Has(b.previous) && b.id !in s.index {
      var t := Added(s, b, ignoreDuplicate).0;
      BelowRoot(t);
      if x :| x in t.index && t.index[x].validated { BestIsValidated(t.index, x); }
      assert s.head in s.index ==> t.index[s.head] == s.index[s.head];
    }
  }

  /** Marking valid never does. */
  lemma {:induction false} MarkNeverLowersHead(s: State, b: Block)
    requires Inv(s)
    ensures var t := MarkedValid(s, b).0; t.Has(t.head) && !Preferred(s.Get(s.head), t.Get(t.head))
  {
    MarkedValidKeepsInv(s, b);
  }
}
