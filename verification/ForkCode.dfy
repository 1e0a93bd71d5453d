/** The fork database as an object: the source's loops, proved against module ForkDatabase. */
module ForkCode {
  import opened Sequences
  import opened ForkTree
  import opened ForkDatabase

  /** The elements of a set in some order, as an iterator yields them. */
  method Listed<T(==)>(elements: set<T>) returns (s: seq<T>)
    ensures Distinct(s) && forall x :: x in s <==> x in elements
  {
    s := [];
    var rest := elements;
    while rest != {}
      invariant Distinct(s) && rest <= elements && forall x :: x in s <==> x in elements && x !in rest
    {
      var x :| x in rest;
      s := s + [x];
      rest := rest - {x};
    }
  }

  /** The state of the worklist of remove: `queue[..i]` has been expanded. */
  ghost predicate Expanding(m: Index, id: BlockId, queue: seq<BlockId>, i: nat) {
    && i <= |queue| && queue != [] && queue[0] == id && Distinct(queue)
    && (forall k :: 0 < k < |queue| ==> queue[k] in m && m[queue[k]].previous in queue[..i])
    && (forall q <- queue :: Above(m, q, id))
    && (forall x <- m :: m[x].previous in queue[..i] ==> x in queue)
  }

  lemma {:induction false} ExpandStep(m: Index, id: BlockId, queue: seq<BlockId>, i: nat, children: seq<BlockId>)
    requires LinkedAll(m) && Expanding(m, id, queue, i) && i < |queue|
    requires Distinct(children) && forall x :: x in children <==> x in m && m[x].previous == queue[i]
    ensures Expanding(m, id, queue + children, i + 1)
  {
    var q, all := queue[i], queue + children;
    assert all[..i+1] == queue[..i] + [q];
    AboveNum(m, q, id);
    forall x | x in children ensures x !in queue {
      assert q !in queue[..i];
      assert x != id;
    }
    forall x | x in all ensures Above(m, x, id) {
      assert x in queue || (x in m && m[x].previous == q);
    }
    forall k | 0 < k < |all| ensures all[k] in m && m[all[k]].previous in all[..i+1] {
      if k >= |queue| { assert all[k] in children; }
    }
  }

  /** A fully expanded queue holds exactly the ids built on `id`. */
  lemma {:induction false} ExpandedAll(m: Index, id: BlockId, queue: seq<BlockId>, x: BlockId)
    requires LinkedAll(m) && Expanding(m, id, queue, |queue|)
    requires Above(m, x, id)
    ensures x in queue
    decreases x.num
  {
    if x != id {
      ExpandedAll(m, id, queue, m[x].previous);
      assert queue[..|queue|] == queue;
    }
  }

  lemma {:induction false} ExpandedExact(m: Index, id: BlockId, queue: seq<BlockId>)
    requires LinkedAll(m) && Expanding(m, id, queue, |queue|)
    ensures forall x :: x in queue <==> Above(m, x, id)
  {
    forall x | Above(m, x, id) ensures x in queue { ExpandedAll(m, id, queue, x); }
  }

  lemma {:induction false} QueueFits(m: Index, id: BlockId, queue: seq<BlockId>, i: nat)
    requires Expanding(m, id, queue, i)
    ensures |queue| <= |m| + 1
  {
    forall q | q in queue ensures q in m.Keys + {id} {
      var k :| 0 <= k < |queue| && queue[k] == q;
    }
    DistinctFits(queue, m.Keys + {id});
    assert |m.Keys + {id}| <= |m.Keys| + 1;
  }

  /** The blocks on `id`: an equal range of the by_prev index. */
  method ChildrenOf(m: Index, id: BlockId) returns (children: seq<BlockId>)
    ensures Distinct(children) && forall x :: x in children <==> x in m && m[x].previous == id
  {
    children := Listed(set x | x in m && m[x].previous == id);
  }

  /** Stopping at the head is right: it is in the queue. Not stopping is right, too. */
  lemma {:induction false} HeadMet(m: Index, id: BlockId, queue: seq<BlockId>, i: nat, head: BlockId)
    requires LinkedAll(m) && Expanding(m, id, queue, i) && head !in queue[..i]
    ensures i < |queue| && queue[i] == head ==> Above(m, head, id)
    ensures i == |queue| ==> !Above(m, head, id) && forall x :: x in queue <==> Above(m, x, id)
  {
    if i == |queue| {
      ExpandedExact(m, id, queue);
      assert queue[..i] == queue;
    } else {
      assert queue[i] in queue;
    }
  }

  lemma {:induction false} HeadNotMet(queue: seq<BlockId>, i: nat, more: seq<BlockId>, head: BlockId)
    requires i < |queue| && head !in queue[..i] && queue[i] != head
    ensures head !in (queue + more)[..i + 1]
  {
    assert (queue + more)[..i + 1] == queue[..i] + [queue[i]];
  }

  /** The first loop of remove: breadth first along the by_prev index, giving up at the head. */
  method RemoveQueue(m: Index, head: BlockId, id: BlockId) returns (ok: bool, queue: seq<BlockId>)
    requires LinkedAll(m)
    ensures ok <==> !Above(m, head, id)
    ensures ok ==> forall x :: x in queue <==> Above(m, x, id)
  {
    queue := [id];
    var i := 0;
    while i < |queue|
      invariant Expanding(m, id, queue, i) && head !in queue[..i]
      decreases |m| + 1 - i
    {
      HeadMet(m, id, queue, i, head);
      if queue[i] == head { return false, []; }
      var children := ChildrenOf(m, queue[i]);
      ExpandStep(m, id, queue, i, children);
      HeadNotMet(queue, i, children, head);
      queue, i := queue + children, i + 1;
      QueueFits(m, id, queue, i);
    }
    HeadMet(m, id, queue, i, head);
    return true, queue;
  }

  // ---- Where two branches part ----

  /** `fork` is a common ancestor, and every common ancestor is one of its ancestors. */
  ghost predicate IsFork(m: Index, first: BlockId, second: BlockId, fork: BlockId) {
    && Above(m, first, fork) && Above(m, second, fork)
    && (forall a :: Above(m, first, a) && Above(m, second, a) ==> Above(m, fork, a))
  }

  /** The walk from (first, second) to (x, y) has passed no common ancestor. */
  ghost predicate SameFork(m: Index, first: BlockId, second: BlockId, x: BlockId, y: BlockId) {
    forall a :: Above(m, first, a) && Above(m, second, a) <==> Above(m, x, a) && Above(m, y, a)
  }

  lemma {:induction false} HigherThanRoot(s: State, x: BlockId, y: BlockId)
    requires Tree(s) && s.Has(x) && s.Has(y) && x.num > y.num
    ensures x in s.index
  {
    BelowRoot(s);
  }

  lemma {:induction false} SameHeight(s: State, x: BlockId, y: BlockId)
    requires Tree(s) && s.Has(x) && s.Has(y) && x.num == y.num && x != y
    ensures x in s.index && y in s.index
  {
    BelowRoot(s);
  }

  lemma {:induction false} StepFirst(m: Index, first: BlockId, second: BlockId, x: BlockId, y: BlockId)
    requires SameFork(m, first, second, x, y) && x in m && Linked(m[x]) && x.num > y.num
    ensures SameFork(m, first, second, m[x].previous, y)
  {
    forall a | Above(m, x, a) && Above(m, y, a) ensures Above(m, m[x].previous, a) { AboveNum(m, y, a); }
  }

  lemma {:induction false} StepSecond(m: Index, first: BlockId, second: BlockId, x: BlockId, y: BlockId)
    requires SameFork(m, first, second, x, y) && y in m && Linked(m[y]) && y.num > x.num
    ensures SameFork(m, first, second, x, m[y].previous)
  {
    forall a | Above(m, x, a) && Above(m, y, a) ensures Above(m, m[y].previous, a) { AboveNum(m, x, a); }
  }

  lemma {:induction false} StepBoth(m: Index, first: BlockId, second: BlockId, x: BlockId, y: BlockId)
    requires SameFork(m, first, second, x, y) && x in m && Linked(m[x]) && y in m && Linked(m[y])
    requires x != y && x.num == y.num
    ensures SameFork(m, first, second, m[x].previous, m[y].previous)
  {
    forall a | Above(m, x, a) && Above(m, y, a) ensures Above(m, m[x].previous, a) && Above(m, m[y].previous, a) {
      AboveNum(m, x, a);
      AboveNum(m, y, a);
    }
  }

  lemma {:induction false} PathEnd(m: Index, x: BlockId, a: BlockId)
    requires Above(m, x, a) && x != a
    ensures Path(m, x, a) != [] && Path(m, x, a)[|Path(m, x, a)| - 1].previous == a
    decreases x.num
  {
    if m[x].previous != a { PathEnd(m, m[x].previous, a); }
  }

  /** Switching forks: undoing the second branch leaves the chain up to the fork, and applying the
      first branch backwards on top of it gives the chain of the new head. */
  lemma {:induction false} SwitchForks(m: Index, first: BlockId, second: BlockId, fork: BlockId)
    requires IsFork(m, first, second, fork)
    ensures var one, two, applied := Path(m, first, fork), Path(m, second, fork), Chain(m, second);
            && |two| <= |applied|
            && applied[..|applied| - |two|] == Chain(m, fork)
            && Chain(m, first) == applied[..|applied| - |two|] + Reversed(one)
            && (two != [] ==> two[|two| - 1].previous == fork)
            && (forall b :: !(b in one && b in two))
  {
    ChainPath(m, first, fork);
    ChainPath(m, second, fork);
    if second != fork { PathEnd(m, second, fork); }
    forall b | b in Path(m, first, fork) && b in Path(m, second, fork) ensures false {
      PathMember(m, first, fork, b);
      PathMember(m, second, fork, b);
      AboveNum(m, fork, b.id);
    }
  }

  lemma {:induction false} PathMember(m: Index, x: BlockId, a: BlockId, b: Block)
    requires Above(m, x, a) && b in Path(m, x, a)
    ensures Above(m, x, b.id) && b.id.num > a.num
    decreases x.num
  {
    var p := m[x].previous;
    AboveNum(m, p, a);
    if b != m[x] {
      assert b in Path(m, p, a);
      PathMember(m, p, a, b);
    }
  }

  method FirstOf(m: Index) returns (x: BlockId)
    requires m != map[]
    ensures x == First(m)
  {
    FirstExists(m);
    x :| x in m && forall y <- m :: y == x || Before(m[x], m[y]);
    FirstUnique(m, x);
  }

  class Database {
    var root: Block
    var head: BlockId
    var index: Index

    ghost function S(): State
      reads this
    {
      State(root, head, index)
    }

    constructor (rootBlock: Block)
      ensures S() == Reset(rootBlock)
    {
      root, head, index := rootBlock.(validated := true), rootBlock.id, map[];
    }

    /** The begin() of the by_lib_block_num index. */
    method Best() returns (x: BlockId)
      requires index != map[]
      ensures x == First(index)
    {
      x := FirstOf(index);
    }

    method Add(b: Block, ignoreDuplicate: bool) returns (r: Result)
      modifies this
      ensures (S(), r) == Added(old(S()), b, ignoreDuplicate)
    {
      if b.previous != root.id && b.previous !in index { return Failed(UnlinkableBlock); }
      if b.id in index {
        if ignoreDuplicate { return Done; }
        return Failed(DuplicateBlock);
      }
      index := index[b.id := b];
      var candidate := Best();
      if index[candidate].validated { head := candidate; }
      return Done;
    }

    method MarkValid(b: Block) returns (r: Result)
      requires S().Has(head)
      modifies this
      ensures (S(), r) == MarkedValid(old(S()), b)
    {
      if b.validated { return Done; }
      if b.id !in index { return Failed(NotInDatabase); }
      index := index[b.id := index[b.id].(validated := true)];
      var candidate := Best();
      if Preferred(index[candidate], if head == root.id then root else index[head]) { head := candidate; }
      return Done;
    }

    /** Removes a block and everything built on it, unless that includes the head. */
    method Remove(id: BlockId) returns (r: Result)
      requires LinkedAll(index)
      modifies this`index
      ensures (S(), r) == Removed(old(S()), id)
    {
      var ok, queue := RemoveQueue(index, head, id);
      if !ok { return Failed(RemovesHead); }
      index := map x | x in index && x !in queue :: index[x];
      assert index == Pruned(old(index), id);
      return Done;
    }

    method AdvanceRoot(id: BlockId) returns (r: Result)
      requires Tree(S())
      modifies this
      ensures (S(), r) == Advanced(old(S()), id)
    {
      if id !in index { return Failed(NewRootMissing); }
      var newRoot := index[id];
      if !newRoot.validated { return Failed(NewRootNotValidated); }
      var doomed := BlocksToRemove(newRoot);
      index := index - {id};
      r := RemoveEach(doomed);
      if r == Done { root := newRoot; }
    }

    method BlocksToRemove(newRoot: Block) returns (doomed: seq<BlockId>)
      requires Tree(S()) && newRoot.id in index && newRoot == index[newRoot.id]
      ensures doomed == Ancestors(index, newRoot.id)
    {
      doomed := [newRoot.previous];
      var b := newRoot.previous;
      while b in index
        invariant S().Has(b)
        invariant Ancestors(index, newRoot.id) == doomed + Ancestors(index, b)
        decreases b.num
      {
        assert doomed + ([index[b].previous] + Ancestors(index, index[b].previous))
            == doomed + [index[b].previous] + Ancestors(index, index[b].previous);
        b := index[b].previous;
        doomed := doomed + [b];
      }
    }

    method RemoveEach(ids: seq<BlockId>) returns (r: Result)
      requires LinkedAll(index)
      modifies this`index
      ensures (S(), r) == RemovedAll(old(S()), ids)
    {
      ghost var start := S();
      var i := 0;
      assert ids[0..] == ids;
      while i < |ids|
        invariant 0 <= i <= |ids| && LinkedAll(index)
        invariant RemovedAll(start, ids) == RemovedAll(S(), ids[i..])
      {
        assert ids[i..][0] == ids[i] && ids[i..][1..] == ids[i+1..];
        var removed := Remove(ids[i]);
        if removed != Done { return removed; }
        i := i + 1;
      }
      return Done;
    }

    method FetchBranchFrom(first: BlockId, second: BlockId)
        returns (ok: bool, one: seq<Block>, two: seq<Block>, ghost fork: BlockId)
      requires Tree(S())
      ensures ok <==> S().Has(first) && S().Has(second)
      ensures ok ==> IsFork(index, first, second, fork)
      ensures ok ==> one == Path(index, first, fork) && two == Path(index, second, fork)
    {
      one, two, fork := [], [], root.id;
      if (first != root.id && first !in index) || (second != root.id && second !in index) {
        return false, one, two, fork;
      }
      var x, y := first, second;
      while x.num > y.num
        invariant S().Has(x) && Above(index, first, x) && one == Path(index, first, x)
        invariant SameFork(index, first, second, x, y)
        decreases x.num
      {
        HigherThanRoot(S(), x, y);
        PathExtends(index, first, x);
        StepFirst(index, first, second, x, y);
        one := one + [index[x]];
        x := index[x].previous;
      }
      while y.num > x.num
        invariant S().Has(y) && Above(index, second, y) && two == Path(index, second, y)
        invariant SameFork(index, first, second, x, y) && x.num <= y.num
        decreases y.num
      {
        HigherThanRoot(S(), y, x);
        PathExtends(index, second, y);
        StepSecond(index, first, second, x, y);
        two := two + [index[y]];
        y := index[y].previous;
      }
      if x == y { return true, one, two, x; }
      SameHeight(S(), x, y);
      while index[x].previous != index[y].previous
        invariant x in index && y in index && x != y && x.num == y.num
        invariant Above(index, first, x) && one == Path(index, first, x)
        invariant Above(index, second, y) && two == Path(index, second, y)
        invariant SameFork(index, first, second, x, y)
        decreases x.num
      {
        PathExtends(index, first, x);
        PathExtends(index, second, y);
        StepBoth(index, first, second, x, y);
        one, two := one + [index[x]], two + [index[y]];
        x, y := index[x].previous, index[y].previous;
        SameHeight(S(), x, y);
      }
      PathExtends(index, first, x);
      PathExtends(index, second, y);
      StepBoth(index, first, second, x, y);
      return true, one + [index[x]], two + [index[y]], index[x].previous;
    }
  }
}
