/** A node receives blocks: push_block over the fork database, and catching up with another chain. */
module ForkSync {
  import opened ForkTree
  import opened ForkDatabase

  // ---- Pushing one block ----

  /** The head's branch becomes that of `x`, and every block on it has been applied. */
  ghost function Switched(s: State, x: BlockId): State {
    State(s.root, x, map y | y in s.index :: s.index[y].(validated := s.index[y].validated || Above(s.index, x, y)))
  }

  /** The ancestor of `x` with number `n`. */
  ghost function AncestorAt(m: Index, x: BlockId, n: nat): BlockId
    decreases x.num
  {
    if x.num <= n || x !in m || !Linked(m[x]) then x else AncestorAt(m, m[x].previous, n)
  }

  /** Blocks up to the irreversible one leave the database. */
  ghost function Logged(s: State): State
    requires s.Has(s.head)
  {
    var lib := s.Get(s.head).lib;
    if lib <= s.root.id.num then s else Advanced(s, AncestorAt(s.index, s.head, lib)).0
  }

  /** A block arrives: it is added, and when that gives a better branch the node switches to it. */
  ghost function Pushed(s: State, b: Block): (State, Result)
    requires s.Has(s.head)
  {
    if b.id in s.index then (s, Failed(DuplicateBlock))
    else if !s.Has(b.previous) then (s, Failed(UnlinkableBlock))
    else
      var t := Added(s, b.(validated := false), false).0;
      if !t.Has(t.head) || PendingHead(t) == t.head then (t, Done) else (Logged(Switched(t, PendingHead(t))), Done)
  }

  /** What a node that only receives blocks keeps: its head is the one best block, applied with its
      whole branch. */
  ghost predicate Settled(s: State) {
    Inv(s) && Young(s.index) && Leading(s) && Applied(s)
  }

  ghost predicate Young(m: Index) { forall x <- m :: m[x].lib < x.num }

  ghost predicate Leading(s: State)
    requires s.Has(s.head)
  {
    && (forall x <- s.index :: !Preferred(s.index[x], s.Get(s.head)))
    && (forall x <- s.index :: s.index[x].validated && x != s.head ==> Preferred(s.Get(s.head), s.index[x]))
    && (s.head == s.root.id ==> forall x <- s.index :: !s.index[x].validated)
  }

  ghost predicate Applied(s: State) {
    forall x <- s.index :: Above(s.index, s.head, x) ==> s.index[x].validated
  }

  lemma {:induction false} AboveSame(m: Index, n: Index, x: BlockId, a: BlockId)
    requires m.Keys == n.Keys && forall y <- m :: n[y].previous == m[y].previous
    ensures Above(m, x, a) <==> Above(n, x, a)
    decreases x.num
  {
    if x != a && x in m && Linked(m[x]) { AboveSame(m, n, m[x].previous, a); }
  }

  lemma {:induction false} AboveWithin(m: Index, n: Index, x: BlockId, a: BlockId)
    requires (forall y <- m :: y in n && n[y] == m[y]) && Above(m, x, a)
    ensures Above(n, x, a)
    decreases x.num
  {
    if x != a { AboveWithin(m, n, m[x].previous, a); }
  }

  /** The same block, applied or not. */
  predicate Same(a: Block, b: Block) { a.id == b.id && a.previous == b.previous && a.lib == b.lib }

  ghost predicate From(c: Block, s: State, b: Block) {
    (c.id == b.id && Same(c, b)) || (c.id in s.index && Same(c, s.index[c.id]))
  }

  /** `t` holds nothing but blocks of `s` and `b`. */
  ghost predicate Within(t: State, s: State, b: Block) {
    (t.root == s.root || From(t.root, s, b)) && forall y <- t.index :: From(t.index[y], s, b)
  }

  /** A block that can be pushed: not known, on a known one, not yet applied. */
  ghost predicate Fresh(s: State, b: Block) {
    Linked(b) && !b.validated && b.id !in s.index && b.id != s.root.id && s.Has(b.previous) && b.lib < b.id.num
  }

  function With(s: State, b: Block): State { s.(index := s.index[b.id := b]) }

  /** Adding leaves the head of a settled database alone. */
  lemma {:induction false} AddedToSettled(s: State, b: Block)
    requires Settled(s) && Fresh(s, b)
    ensures Added(s, b, false) == (With(s, b), Done) && Inv(With(s, b)) && Young(With(s, b).index)
  {
    AddedKeepsInv(s, b, false);
    FirstStays(s, b);
  }

  lemma {:induction false} FirstStays(s: State, b: Block)
    requires Settled(s) && Fresh(s, b)
    ensures var m := With(s, b).index; if s.head in s.index then First(m) == s.head else !m[First(m)].validated
  {
    var m: Index := s.index[b.id := b];
    if s.head in s.index {
      assert forall y <- m :: y == s.head || Before(m[s.head], m[y]);
      FirstUnique(m, s.head);
    } else {
      assert forall y <- m :: !m[y].validated;
    }
  }

  lemma {:induction false} FirstPending(s: State, b: Block)
    requires s.Has(s.head) && Leading(s) && Fresh(s, b) && Preferred(b, s.Get(s.head))
    ensures Unvalidated(With(s, b).index) != map[] && First(Unvalidated(With(s, b).index)) == b.id
  {
    var pending := Unvalidated(With(s, b).index);
    assert b.id in pending;
    forall y | y in pending && y != b.id ensures Before(pending[b.id], pending[y]) {
      assert y in s.index && pending[y] == s.index[y];
    }
    FirstUnique(pending, b.id);
  }

  /** The pending head is the new block if it is better than the head, and the head if not. */
  lemma {:induction false} PendingAfterAdd(s: State, b: Block)
    requires s.Has(s.head) && Leading(s) && Fresh(s, b)
    ensures With(s, b).Has(s.head) && With(s, b).Get(s.head) == s.Get(s.head)
    ensures PendingHead(With(s, b)) == if Preferred(b, s.Get(s.head)) then b.id else s.head
  {
    if Preferred(b, s.Get(s.head)) {
      FirstPending(s, b);
    } else {
      var m := With(s, b).index;
      assert forall y <- m :: !Preferred(m[y], s.Get(s.head));
    }
  }

  /** Switching to a block that is better than all others. */
  lemma {:induction false} SwitchedSettles(s: State, x: BlockId)
    requires Tree(s) && s.root.validated && x in s.index
    requires forall y <- s.index :: y != x ==> Preferred(s.index[x], s.index[y])
    requires forall y <- s.index :: s.index[y].lib < y.num
    ensures Settled(Switched(s, x))
  {
    var t := Switched(s, x);
    assert t.index[x].validated && x != s.root.id;
    forall y | y in t.index && Above(t.index, x, y) ensures t.index[y].validated {
      AboveSame(s.index, t.index, x, y);
    }
  }

  lemma {:induction false} AncestorAtFacts(s: State, x: BlockId, n: nat)
    requires Tree(s) && s.Has(x) && s.root.id.num < n <= x.num
    ensures var a := AncestorAt(s.index, x, n); a in s.index && a.num == n && Above(s.index, x, a)
    decreases x.num
  {
    BelowRoot(s);
    if x.num > n { AncestorAtFacts(s, s.index[x].previous, n); }
  }

  /** `t` is `s` with the root moved up the head's branch to the irreversible block of the head, if that is
      further up, and exactly what is built on the root left. */
  ghost predicate MovedUp(s: State, t: State)
    requires s.head in s.index
  {
    var lib, root := s.index[s.head].lib, t.root.id;
    && t.head == s.head && s.Has(root) && t.root == s.Get(root) && Above(s.index, s.head, root)
    && root.num == (if lib <= s.root.id.num then s.root.id.num else lib)
    && (forall x :: x in t.index <==> x in s.index && x != root && Above(s.index, x, root))
    && (forall x <- t.index :: t.index[x] == s.index[x])
  }

  lemma {:induction false} LoggedMovesUp(s: State)
    requires Settled(s) && s.head in s.index
    ensures MovedUp(s, Logged(s))
  {
    var lib := s.index[s.head].lib;
    BelowRoot(s);
    ReachesRoot(s, s.head);
    if lib > s.root.id.num {
      AncestorAtFacts(s, s.head, lib);
      AdvancedExact(s, AncestorAt(s.index, s.head, lib));
    }
  }

  /** Moving the root up keeps the database settled, its head, and the head in the index. */
  lemma {:induction false} LoggedSettles(s: State)
    requires Settled(s) && s.head in s.index
    ensures Settled(Logged(s)) && s.head in Logged(s).index && MovedUp(s, Logged(s))
  {
    var lib := s.Get(s.head).lib;
    LoggedMovesUp(s);
    BelowRoot(s);
    if lib > s.root.id.num {
      var id := AncestorAt(s.index, s.head, lib);
      AncestorAtFacts(s, s.head, lib);
      AdvancedExact(s, id);
      var t := Logged(s);
      assert t == State(s.index[id], s.head, Descendants(s.index, id));
      forall y | y in t.index && Above(t.index, t.head, y) ensures t.index[y].validated {
        AboveWithin(t.index, s.index, t.head, y);
      }
    }
  }

  /** The new block is better: it becomes the head. */
  lemma {:induction false} PushedBetter(s: State, b: Block)
    requires Settled(s) && Fresh(s, b) && Preferred(b, s.Get(s.head))
    ensures var u := Switched(With(s, b), b.id);
            var t := Logged(u);
            u.Has(u.head) && Settled(t) && PushedUp(s, b, t) && b.id in t.index && Within(t, s, b)
  {
    var u := With(s, b);
    AddedToSettled(s, b);
    forall y | y in u.index && y != b.id ensures Preferred(b, u.index[y]) {
      assert !Preferred(s.index[y], s.Get(s.head));
    }
    SwitchedSettles(u, b.id);
    var t := Logged(Switched(u, b.id));
    LoggedSettles(Switched(u, b.id));
    MovedUpFrom(u, b.id, t);
    WithinUp(s, b, t);
  }

  lemma {:induction false} WithinUp(s: State, b: Block, t: State)
    requires PushedUp(s, b, t) && b.id !in s.index && b.id != s.root.id && t.root.validated && s.root.validated
    ensures Within(t, s, b)
  {
    var u := With(s, b);
    assert t.root.id == s.root.id ==> Same(t.root, s.root);
    assert u.Has(t.root.id);
  }

  /** The new block is the head, its branch is applied, the root has moved up to the irreversible block, and
      exactly what is built on that is left. */
  ghost predicate PushedUp(s: State, b: Block, t: State) {
    SwitchedUp(With(s, b), b.id, t)
  }

  ghost predicate SwitchedUp(u: State, x: BlockId, t: State) {
    var root := t.root.id;
    && x in u.index && t.head == x && u.Has(root) && Same(t.root, u.Get(root)) && Above(u.index, x, root)
    && root.num == (if u.index[x].lib <= u.root.id.num then u.root.id.num else u.index[x].lib)
    && (forall y :: y in t.index <==> y in u.index && y != root && Above(u.index, y, root))
    && (forall y <- t.index :: Same(t.index[y], u.index[y]) &&
          (t.index[y].validated <==> u.index[y].validated || Above(u.index, x, y)))
  }

  lemma {:induction false} MovedUpFrom(u: State, x: BlockId, t: State)
    requires x in u.index && MovedUp(Switched(u, x), t)
    ensures SwitchedUp(u, x, t)
  {
    SwitchedAbove(u, x, t.root.id);
    MarkedSame(u, Switched(u, x), x, t);
  }

  /** `v` is `u` with other marks. */
  lemma {:induction false} MarkedSame(u: State, v: State, x: BlockId, t: State)
    requires x in u.index && v.root == u.root && v.head == x && v.index.Keys == u.index.Keys && MovedUp(v, t)
    requires forall y <- u.index :: Same(v.index[y], u.index[y])
    requires forall y <- u.index :: v.index[y].validated <==> u.index[y].validated || Above(u.index, x, y)
    requires forall y :: Above(v.index, y, t.root.id) <==> Above(u.index, y, t.root.id)
    ensures SwitchedUp(u, x, t)
  {
  }

  lemma {:induction false} SwitchedAbove(u: State, x: BlockId, a: BlockId)
    ensures forall y :: Above(Switched(u, x).index, y, a) <==> Above(u.index, y, a)
  {
    forall y ensures Above(Switched(u, x).index, y, a) <==> Above(u.index, y, a) {
      AboveSame(u.index, Switched(u, x).index, y, a);
    }
  }

  /** It is not better: the head stays. */
  lemma {:induction false} AddedSettles(s: State, b: Block)
    requires Settled(s) && Fresh(s, b) && !Preferred(b, s.Get(s.head))
    ensures Settled(With(s, b))
  {
    AddedToSettled(s, b);
    var t := With(s, b);
    assert Leading(t);
    forall y | y in t.index && Above(t.index, t.head, y) ensures t.index[y].validated {
      NotAboveNew(s, b, s.head, y);
    }
  }

  lemma {:induction false} PushedIs(s: State, b: Block)
    requires Settled(s) && Fresh(s, b.(validated := false))
    ensures var c := b.(validated := false);
            Pushed(s, b).1 == Done &&
            (if Preferred(b, s.Get(s.head)) then
               Switched(With(s, c), b.id).Has(b.id) && Pushed(s, b).0 == Logged(Switched(With(s, c), b.id))
             else Pushed(s, b).0 == With(s, c))
  {
    var c := b.(validated := false);
    AddedToSettled(s, c);
    PendingAfterAdd(s, c);
  }

  /** What pushing leaves: a settled node with nothing else new.  If the block is better than the head it is the
      head, and everything up to its irreversible block has left; if not it is just kept. */
  ghost predicate PushLeaves(s: State, b: Block, t: State)
    requires s.Has(s.head)
  {
    var c := b.(validated := false);
    && Settled(t) && b.id in t.index && Within(t, s, b)
    && if Preferred(b, s.Get(s.head)) then PushedUp(s, c, t)
       else t.root == s.root && t.head == s.head && t.index == s.index[b.id := c]
  }

  lemma {:induction false} PushedFresh(s: State, b: Block)
    requires Settled(s) && Fresh(s, b.(validated := false))
    ensures Pushed(s, b).1 == Done && PushLeaves(s, b, Pushed(s, b).0)
  {
    var c := b.(validated := false);
    PushedIs(s, b);
    if Preferred(b, s.Get(s.head)) { PushedBetter(s, c); } else { AddedSettles(s, c); }
  }

  /** One block pushed to a settled node: it fails, changing nothing, exactly when the block is known or
      its predecessor is not; else the node is settled again, and the block is its head, with its branch applied
      and the root at its irreversible block, exactly when it is preferred to the old one. */
  lemma {:induction false} PushedExact(s: State, b: Block)
    requires Settled(s) && Linked(b) && b.lib < b.id.num
    ensures var (t, r) := Pushed(s, b);
            && (r == Done <==> b.id !in s.index && s.Has(b.previous))
            && if r == Done then PushLeaves(s, b, t) else t == s
  {
    if b.id !in s.index && s.Has(b.previous) {
      IsFresh(s, b.(validated := false));
      PushedFresh(s, b);
    }
  }

  lemma {:induction false} IsFresh(s: State, b: Block)
    requires Tree(s) && Linked(b) && !b.validated && b.id !in s.index && s.Has(b.previous) && b.lib < b.id.num
    ensures Fresh(s, b)
  {
    BelowRoot(s);
  }

  /** A block just added is below no other. */
  lemma {:induction false} NotAboveNew(s: State, b: Block, x: BlockId, y: BlockId)
    requires Tree(s) && b.id !in s.index && b.id != s.root.id && s.Has(x)
    requires Above(s.index[b.id := b], x, y)
    ensures Above(s.index, x, y) && y != b.id
    decreases x.num
  {
    if x != y {
      if x == s.root.id { BelowRoot(s); }
      NotAboveNew(s, b, s.index[x].previous, y);
    }
  }

  /** A node that has received nothing is settled. */
  lemma {:induction false} ResetSettles(b: Block)
    ensures Settled(Reset(b))
  {
  }

  // ---- Catching up with another chain ----

  /** A chain by number: block n is chain[n - 1]. */
  ghost predicate IsChain(chain: seq<Block>) {
    && (forall i :: 0 <= i < |chain| ==> chain[i].id.num == i + 1 && Linked(chain[i]) && chain[i].lib <= i)
    && (forall i :: 0 < i < |chain| ==> chain[i].previous == chain[i-1].id)
  }

  /** What pushing the blocks of `chain` one after the other, up to number `n`, leads to. */
  ghost function CaughtUp(chain: seq<Block>, s: State, n: nat): (State, bool)
    requires s.Has(s.head) && n <= |chain|
    decreases n - s.head.num
  {
    if s.head.num >= n then (s, true)
    else
      var (t, r) := Pushed(s, chain[s.head.num]);
      if r != Done || !t.Has(t.head) || t.head.num <= s.head.num then (t, false) else CaughtUp(chain, t, n)
  }

  /** The irreversible block number does not fall from block `h` to block `n`. */
  ghost predicate Rises(chain: seq<Block>, h: nat, n: nat)
    requires n <= |chain|
  {
    forall i :: h < i < n ==> chain[i].lib >= chain[i-1].lib
  }

  /** The next block of the chain can be built on and is better than the node's head. */
  ghost predicate Follows(chain: seq<Block>, s: State)
    requires s.Has(s.head) && s.head.num < |chain|
  {
    var b := chain[s.head.num];
    b.id !in s.index && s.Has(b.previous) && Preferred(b, s.Get(s.head))
  }

  /** An id determines its block. */
  ghost predicate Agrees(chain: seq<Block>, s: State) {
    forall i :: 0 <= i < |chain| && chain[i].id in s.index ==> Same(s.index[chain[i].id], chain[i])
  }

  /** So it does for the root, unless that is the one the node started with. */
  ghost predicate Rooted(chain: seq<Block>, s: State, t: State) {
    t.root == s.root || forall i :: 0 <= i < |chain| && chain[i].id == t.root.id ==> Same(t.root, chain[i])
  }

  lemma {:induction false} AgreesOn(chain: seq<Block>, s: State, t: State, i: nat)
    requires Agrees(chain, s) && IsChain(chain) && i < |chain| && Within(t, s, chain[i])
    ensures Agrees(chain, t) && Rooted(chain, s, t)
  {
    forall k | 0 <= k < |chain| && chain[k].id in t.index ensures Same(t.index[chain[k].id], chain[k]) {
      assert chain[k].id == chain[i].id ==> k == i;
    }
  }

  /** The block after the one just pushed is not there yet. */
  lemma {:induction false} NextIsNew(chain: seq<Block>, s: State, t: State, h: nat)
    requires Tree(s) && IsChain(chain) && Agrees(chain, s) && h + 1 < |chain| && s.root.id.num <= h
    requires chain[h].id !in s.index && Within(t, s, chain[h])
    ensures chain[h+1].id !in t.index
  {
    assert chain[h+1].previous == chain[h].id && chain[h+1].id != chain[h].id;
    assert !s.Has(chain[h].id);
    assert forall x <- s.index :: s.index[x].previous != chain[h].id;
  }

  lemma {:induction false} FollowsNext(chain: seq<Block>, t: State, h: nat)
    requires IsChain(chain) && h + 1 < |chain| && chain[h+1].id !in t.index
    requires t.Has(t.head) && Same(t.Get(t.head), chain[h]) && t.head == chain[h].id
    ensures Follows(chain, t) <==> chain[h+1].lib >= chain[h].lib
  {
    assert chain[h+1].previous == chain[h].id;
  }

  lemma {:induction false} FollowsOn(chain: seq<Block>, s: State)
    requires Settled(s) && IsChain(chain) && Agrees(chain, s) && s.head.num + 1 < |chain| && Follows(chain, s)
    ensures var h := s.head.num;
            var t := Pushed(s, chain[h]).0;
            && Settled(t) && Agrees(chain, t) && t.head == chain[h].id
            && (Follows(chain, t) <==> chain[h+1].lib >= chain[h].lib)
  {
    PushedExact(s, chain[s.head.num]);
    LeavesFollow(chain, s, Pushed(s, chain[s.head.num]).0);
  }

  lemma {:induction false} LeavesFollow(chain: seq<Block>, s: State, t: State)
    requires Settled(s) && IsChain(chain) && Agrees(chain, s) && s.head.num + 1 < |chain| && Follows(chain, s)
    requires PushLeaves(s, chain[s.head.num], t)
    ensures Agrees(chain, t) && (Follows(chain, t) <==> chain[s.head.num + 1].lib >= chain[s.head.num].lib)
  {
    var h := s.head.num;
    BelowRoot(s);
    AgreesOn(chain, s, t, h);
    NextIsNew(chain, s, t, h);
    FollowsNext(chain, t, h);
  }

  /** The root has moved up to number `lib`, unless it was there or above. */
  predicate RootAt(s: State, lib: nat, t: State) {
    t.root.id.num == if lib <= s.root.id.num then s.root.id.num else lib
  }

  /** One block of the chain: the rest is up to the node it leaves, or the loop has failed. */
  lemma {:induction false} CaughtUpStep(chain: seq<Block>, s: State, n: nat)
    requires Settled(s) && IsChain(chain) && s.head.num < n <= |chain|
    ensures var (t, r) := Pushed(s, chain[s.head.num]);
            && Settled(t)
            && if Follows(chain, s)
               then && t.head == chain[s.head.num].id && RootAt(s, chain[s.head.num].lib, t)
                    && CaughtUp(chain, s, n) == CaughtUp(chain, t, n)
               else CaughtUp(chain, s, n) == (t, false)
  {
    PushedExact(s, chain[s.head.num]);
  }

  /** The root is the chain's block of its number, and the head's branch is the chain from there to the head. */
  ghost predicate OnChain(chain: seq<Block>, t: State) {
    && (t.root.id.num > 0 ==> IsNumber(chain, t.root.id))
    && (forall y <- t.index :: Above(t.index, t.head, y) ==> IsNumber(chain, y) && Same(t.index[y], chain[y.num - 1]))
    && (forall k :: t.root.id.num <= k < t.head.num ==> k < |chain| && OnBranch(t, chain[k].id))
  }

  ghost predicate OnBranch(t: State, x: BlockId) { x in t.index && Above(t.index, t.head, x) }

  predicate IsNumber(chain: seq<Block>, x: BlockId) { 0 < x.num <= |chain| && x == chain[x.num - 1].id }

  lemma {:induction false} BranchOnChain(chain: seq<Block>, t: State, x: BlockId, y: BlockId)
    requires Tree(t) && IsChain(chain) && Agrees(chain, t) && Above(t.index, x, y) && IsNumber(chain, x)
    ensures y.num > 0 ==> IsNumber(chain, y)
    decreases x.num
  {
    if x != y {
      var p := t.index[x].previous;
      assert Same(t.index[x], chain[x.num - 1]);
      if x.num > 1 { BranchOnChain(chain, t, p, y); } else { AboveNum(t.index, p, y); }
    }
  }

  /** A head on the chain has the whole branch on it. */
  lemma {:induction false} HeadOnChain(chain: seq<Block>, t: State)
    requires Tree(t) && t.Has(t.head) && IsChain(chain) && Agrees(chain, t) && IsNumber(chain, t.head)
    ensures OnChain(chain, t)
  {
    ReachesRoot(t, t.head);
    BranchOnChain(chain, t, t.head, t.root.id);
    forall y | y in t.index && Above(t.index, t.head, y)
      ensures IsNumber(chain, y) && Same(t.index[y], chain[y.num - 1])
    {
      assert Linked(t.index[y]);
      BranchOnChain(chain, t, t.head, y);
    }
    forall k | t.root.id.num <= k < t.head.num ensures k < |chain| && OnBranch(t, chain[k].id) {
      NumberOnBranch(chain, t, k);
    }
  }

  lemma {:induction false} NumberOnBranch(chain: seq<Block>, t: State, k: nat)
    requires Tree(t) && t.Has(t.head) && IsChain(chain) && Agrees(chain, t) && IsNumber(chain, t.head)
    requires t.root.id.num <= k < t.head.num
    ensures k < |chain| && OnBranch(t, chain[k].id)
  {
    var a := AncestorAt(t.index, t.head, k + 1);
    AncestorAtFacts(t, t.head, k + 1);
    BranchOnChain(chain, t, t.head, a);
  }

  lemma {:induction false} PushedAgrees(chain: seq<Block>, s: State)
    requires Settled(s) && IsChain(chain) && Agrees(chain, s) && s.head.num < |chain|
    ensures var t := Pushed(s, chain[s.head.num]).0; Agrees(chain, t) && Rooted(chain, s, t)
  {
    var b := chain[s.head.num];
    PushedExact(s, b);
    if Pushed(s, b).1 == Done { AgreesOn(chain, s, Pushed(s, b).0, s.head.num); }
  }

  ghost predicate CatchesUp(chain: seq<Block>, s: State, n: nat, t: State, ok: bool)
    requires s.Has(s.head) && n <= |chain|
  {
    && Settled(t) && Agrees(chain, t) && Rooted(chain, s, t)
    && (ok <==> CanCatchUp(chain, s, n))
    && (ok ==> if s.head.num >= n then t == s else Arrived(chain, s, n, t))
  }

  /** There is nothing to do, or the next block follows and the irreversible number does not fall from there. */
  ghost predicate CanCatchUp(chain: seq<Block>, s: State, n: nat)
    requires s.Has(s.head) && n <= |chain|
  {
    s.head.num >= n || (Follows(chain, s) && Rises(chain, s.head.num, n))
  }

  /** The head is block `n`, the root its irreversible block, and the chain's blocks are between them. */
  ghost predicate Arrived(chain: seq<Block>, s: State, n: nat, t: State)
    requires 0 < n <= |chain|
  {
    t.head == chain[n-1].id && RootAt(s, chain[n-1].lib, t) && OnChain(chain, t)
  }

  lemma {:induction false} CanCatchUpOn(chain: seq<Block>, s: State, t: State, n: nat)
    requires s.Has(s.head) && s.head.num + 1 < n <= |chain| && Follows(chain, s) && t.Has(t.head)
    requires t.head.num == s.head.num + 1
    requires Follows(chain, t) <==> chain[s.head.num + 1].lib >= chain[s.head.num].lib
    ensures CanCatchUp(chain, s, n) <==> CanCatchUp(chain, t, n)
  {
    RisesOn(chain, s.head.num, n);
  }

  lemma {:induction false} ArrivedOn(chain: seq<Block>, s: State, t: State, n: nat, u: State)
    requires s.head.num + 1 < n <= |chain| && RootAt(s, chain[s.head.num].lib, t) && Arrived(chain, t, n, u)
    requires Rises(chain, s.head.num, n)
    ensures Arrived(chain, s, n, u)
  {
    RisesThrough(chain, s.head.num, n - 1);
    RootAtOn(s, t, u, chain[s.head.num].lib, chain[n-1].lib);
  }

  lemma {:induction false} CatchesUpDone(chain: seq<Block>, s: State, n: nat)
    requires Settled(s) && Agrees(chain, s) && n <= |chain| && s.head.num >= n
    ensures CatchesUp(chain, s, n, s, true)
  {
  }

  lemma {:induction false} CatchesUpNot(chain: seq<Block>, s: State, n: nat, t: State)
    requires s.Has(s.head) && Settled(t) && s.head.num < n <= |chain| && !Follows(chain, s)
    requires Agrees(chain, t) && Rooted(chain, s, t)
    ensures CatchesUp(chain, s, n, t, false)
  {
  }

  lemma {:induction false} CatchesUpLast(chain: seq<Block>, s: State, n: nat, t: State)
    requires s.Has(s.head) && Settled(t) && s.head.num + 1 == n <= |chain| && Follows(chain, s) && IsChain(chain)
    requires t.head == chain[n-1].id && Agrees(chain, t) && Rooted(chain, s, t) && RootAt(s, chain[n-1].lib, t)
    ensures CatchesUp(chain, s, n, t, true)
  {
    HeadOnChain(chain, t);
    assert Arrived(chain, s, n, t) && CanCatchUp(chain, s, n);
  }

  /** Catching up, for any two nodes: it succeeds exactly when there is nothing to do, or the first block to
      push can be built on, is new and beats the head, and the irreversible number does not fall from
      there on; then the head is the block asked for, the root is at the irreversible block of that one, and the
      branch between them is the chain's. */
  lemma {:induction false} CaughtUpExact(chain: seq<Block>, s: State, n: nat)
    requires Settled(s) && IsChain(chain) && Agrees(chain, s) && n <= |chain|
    ensures CatchesUp(chain, s, n, CaughtUp(chain, s, n).0, CaughtUp(chain, s, n).1)
    decreases n - s.head.num
  {
    if s.head.num >= n {
      CatchesUpDone(chain, s, n);
    } else {
      CaughtUpStep(chain, s, n);
      PushedAgrees(chain, s);
      if !Follows(chain, s) {
        CatchesUpNot(chain, s, n, Pushed(s, chain[s.head.num]).0);
      } else {
        if s.head.num + 1 < n { FollowsOn(chain, s); }
        CaughtUpFollows(chain, s, n, Pushed(s, chain[s.head.num]).0);
      }
    }
  }

  lemma {:induction false} CaughtUpFollows(chain: seq<Block>, s: State, n: nat, t: State)
    requires s.Has(s.head) && IsChain(chain) && s.head.num < n <= |chain| && Follows(chain, s)
    requires Settled(t) && t.head == chain[s.head.num].id && Agrees(chain, t) && Rooted(chain, s, t)
    requires RootAt(s, chain[s.head.num].lib, t)
    requires s.head.num + 1 < n ==> (Follows(chain, t) <==> chain[s.head.num + 1].lib >= chain[s.head.num].lib)
    ensures CatchesUp(chain, s, n, CaughtUp(chain, t, n).0, CaughtUp(chain, t, n).1)
    decreases n - s.head.num, 0
  {
    if s.head.num + 1 == n {
      CatchesUpLast(chain, s, n, t);
    } else {
      CaughtUpExact(chain, t, n);
      CatchesUpOn(chain, s, t, n, CaughtUp(chain, t, n).0, CaughtUp(chain, t, n).1);
    }
  }

  lemma {:induction false} CatchesUpOn(chain: seq<Block>, s: State, t: State, n: nat, u: State, ok: bool)
    requires s.Has(s.head) && IsChain(chain) && s.head.num + 1 < n <= |chain| && Follows(chain, s)
    requires t.Has(t.head) && t.head == chain[s.head.num].id && CatchesUp(chain, t, n, u, ok) && Rooted(chain, s, t)
    requires RootAt(s, chain[s.head.num].lib, t)
    requires Follows(chain, t) <==> chain[s.head.num + 1].lib >= chain[s.head.num].lib
    ensures CatchesUp(chain, s, n, u, ok)
  {
    CanCatchUpOn(chain, s, t, n);
    RootedOn(chain, s, t, u);
    if ok { ArrivedOn(chain, s, t, n, u); }
  }

  lemma {:induction false} RootedOn(chain: seq<Block>, s: State, t: State, u: State)
    requires Rooted(chain, s, t) && Rooted(chain, t, u)
    ensures Rooted(chain, s, u)
  {
  }

  lemma {:induction false} RootAtOn(s: State, t: State, u: State, first: nat, last: nat)
    requires RootAt(s, first, t) && RootAt(t, last, u) && first <= last
    ensures RootAt(s, last, u)
  {
  }

  lemma {:induction false} RisesThrough(chain: seq<Block>, h: nat, k: nat)
    requires h <= k < |chain| && Rises(chain, h, k + 1)
    ensures chain[h].lib <= chain[k].lib
  {
    if h < k { RisesThrough(chain, h, k - 1); }
  }

  lemma {:induction false} RisesOn(chain: seq<Block>, h: nat, n: nat)
    requires h + 1 < n <= |chain|
    ensures Rises(chain, h, n) <==> chain[h+1].lib >= chain[h].lib && Rises(chain, h + 1, n)
  {
  }

  /** A node whose head is on the chain catches up exactly when the irreversible number does not fall; then
      its head is the block asked for, unless it was past that, and its root and branch are the chain's. */
  lemma {:induction false} CaughtUpOnChain(chain: seq<Block>, s: State, n: nat)
    requires Settled(s) && IsChain(chain) && Agrees(chain, s) && 0 < s.head.num <= |chain| && n <= |chain|
    requires Same(s.Get(s.head), chain[s.head.num - 1])
    ensures var (t, ok) := CaughtUp(chain, s, n);
            && CatchesUp(chain, s, n, t, ok) && (ok <==> Rises(chain, s.head.num - 1, n))
            && (ok ==> t.head.num >= n && OnChain(chain, t))
  {
    CaughtUpExact(chain, s, n);
    if s.head.num < n { RisesFrom(chain, s, n); } else { HeadOnChain(chain, s); }
  }

  lemma {:induction false} RisesFrom(chain: seq<Block>, s: State, n: nat)
    requires Settled(s) && IsChain(chain) && Agrees(chain, s) && 0 < s.head.num < n <= |chain|
    requires Same(s.Get(s.head), chain[s.head.num - 1])
    ensures Follows(chain, s) && Rises(chain, s.head.num, n) <==> Rises(chain, s.head.num - 1, n)
  {
    RisesOn(chain, s.head.num - 1, n);
    FollowsFrom(chain, s);
  }

  lemma {:induction false} FollowsFrom(chain: seq<Block>, s: State)
    requires Settled(s) && IsChain(chain) && Agrees(chain, s) && 0 < s.head.num < |chain|
    requires Same(s.Get(s.head), chain[s.head.num - 1])
    ensures Follows(chain, s) <==> chain[s.head.num].lib >= chain[s.head.num - 1].lib
  {
    var h := s.head.num;
    if chain[h].id in s.index { assert Same(s.index[chain[h].id], chain[h]); } else { FollowsNext(chain, s, h - 1); }
  }
}
