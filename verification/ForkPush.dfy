/** Receiving blocks with the source's loops: push_block, its switch of forks, and push_blocks, proved against
    module ForkSync. */
module ForkPush {
  import opened Sequences
  import opened ForkTree
  import opened ForkDatabase
  import opened ForkCode
  import opened ForkSync

  // ---- Applying a branch block by block ----

  function MarkedIds(m: Index, ids: set<BlockId>): Index {
    map y | y in m :: m[y].(validated := m[y].validated || y in ids)
  }

  function Ids(branch: seq<Block>): set<BlockId> { set b | b in branch :: b.id }

  lemma {:induction false} PathHolds(m: Index, x: BlockId, a: BlockId, y: BlockId)
    requires Above(m, x, y) && Above(m, y, a) && y != a
    ensures y in m && Above(m, x, a) && m[y] in Path(m, x, a)
    decreases x.num
  {
    AboveNum(m, y, a);
    AboveNum(m, x, y);
    if x != y { PathHolds(m, m[x].previous, a, y); }
  }

  /** The branch from the fork up is what a switch has to apply. */
  lemma {:induction false} BranchIsNew(s: State, x: BlockId, fork: BlockId)
    requires Tree(s) && Applied(s) && Above(s.index, x, fork) && Above(s.index, s.head, fork)
    ensures MarkedIds(s.index, Ids(Path(s.index, x, fork))) == Switched(s, x).index
  {
    var m, ids := s.index, Ids(Path(s.index, x, fork));
    forall y | y in m ensures m[y].validated || y in ids <==> m[y].validated || Above(m, x, y) {
      if y in ids {
        var b :| b in Path(m, x, fork) && b.id == y;
        PathMember(m, x, fork, b);
      }
      if Above(m, x, y) {
        AboveLinear(m, x, y, fork);
        if Above(m, y, fork) && y != fork {
          PathHolds(m, x, fork, y);
        } else {
          AboveTrans(m, s.head, fork, y);
        }
      }
    }
  }

  lemma {:induction false} MarkedMore(m: Index, b: Block, done: seq<Block>)
    requires b.id in m
    ensures var k := MarkedIds(m, Ids(done));
            MarkedIds(m, Ids([b] + done)) ==
            if k[b.id].validated then k else k[b.id := k[b.id].(validated := true)]
  {
    assert Ids([b] + done) == {b.id} + Ids(done);
  }

  /** Blocks are marked valid in the order they are applied, oldest first. */
  method ApplyBranch(db: Database, branch: seq<Block>)
    requires Inv(db.S()) && forall b <- branch :: b.id in db.index
    modifies db
    ensures Inv(db.S()) && db.root == old(db.root) && db.index == MarkedIds(old(db.index), Ids(branch))
    ensures db.head == old(db.head) || db.head in db.index
  {
    assert branch[|branch|..] == [] && MarkedIds(db.index, Ids([])) == db.index;
    for i := |branch| downto 0
      invariant Inv(db.S()) && db.root == old(db.root) && db.index == MarkedIds(old(db.index), Ids(branch[i..]))
      invariant db.head == old(db.head) || db.head in db.index
    {
      assert branch[i] in branch && branch[i..] == [branch[i]] + branch[i+1..];
      MarkedMore(old(db.index), branch[i], branch[i+1..]);
      MarkedValidKeepsInv(db.S(), db.index[branch[i].id]);
      var r := db.MarkValid(db.index[branch[i].id]);
    }
    assert branch[0..] == branch;
  }

  /** The head after a branch has been applied whose last block is better than all others. */
  lemma {:induction false} HeadIsBest(s: State, head: BlockId, x: BlockId)
    requires Inv(s) && x in s.index && s.index[x].validated
    requires forall y <- s.index :: y != x ==> Preferred(s.index[x], s.index[y])
    requires s.head == head || s.head in s.index
    requires head == s.root.id ==> Preferred(s.index[x], s.root)
    ensures s.head == x
  {
  }

  // ---- push_block ----

  method PendingHeadOf(db: Database) returns (x: BlockId)
    requires db.S().Has(db.head)
    ensures x == PendingHead(db.S())
  {
    var pending: Index := map y | y in db.index && !db.index[y].validated :: db.index[y];
    assert pending == Unvalidated(db.index);
    x := db.head;
    if pending != map[] {
      var best := FirstOf(pending);
      var head := if db.head == db.root.id then db.root else db.index[db.head];
      if Preferred(db.index[best], head) { x := best; }
    }
  }

  /** Everything up to the irreversible block of the head leaves the database. */
  method LogIrreversible(db: Database)
    requires Settled(db.S()) && db.head in db.index
    modifies db
    ensures db.S() == Logged(old(db.S()))
  {
    var lib := db.index[db.head].lib;
    if lib <= db.root.id.num { return; }
    BelowRoot(db.S());
    var x := db.head;
    while x.num > lib
      invariant db.S().Has(x) && x.num >= lib
      invariant AncestorAt(db.index, x, lib) == AncestorAt(db.index, db.head, lib)
      invariant unchanged(db)
      decreases x.num
    {
      assert x != db.root.id;
      x := db.index[x].previous;
    }
    assert AncestorAt(db.index, x, lib) == x;
    var r := db.AdvanceRoot(x);
  }

  /** `x` is better than every other block, and than the head. */
  ghost predicate Best(s: State, x: BlockId) {
    && x in s.index && (forall y <- s.index :: y != x ==> Preferred(s.index[x], s.index[y]))
    && (s.head == s.root.id ==> Preferred(s.index[x], s.root))
  }

  lemma {:induction false} BestSwitched(s: State, t: State, x: BlockId)
    requires Best(s, x) && t.root == s.root && t.index == Switched(s, x).index && Inv(t)
    requires t.head == s.head || t.head in t.index
    ensures t == Switched(s, x)
  {
    assert t.index[x].validated;
    HeadIsBest(t, s.head, x);
  }

  /** The switch of forks: the branch is fetched and applied. */
  method SwitchForksTo(db: Database, x: BlockId)
    requires Inv(db.S()) && Applied(db.S()) && Best(db.S(), x)
    modifies db
    ensures db.S() == Switched(old(db.S()), x)
  {
    ghost var s := db.S();
    var ok, one, two, fork := db.FetchBranchFrom(x, db.head);
    BranchIsNew(s, x, fork);
    PathInside(s.index, x, fork);
    ApplyBranch(db, one);
    BestSwitched(s, db.S(), x);
  }

  lemma {:induction false} PathInside(m: Index, x: BlockId, a: BlockId)
    requires Above(m, x, a)
    ensures forall b <- Path(m, x, a) :: b.id in m
    decreases x.num
  {
    if x != a { PathInside(m, m[x].previous, a); }
  }

  lemma {:induction false} BetterIsBest(s: State, b: Block)
    requires Settled(s) && Fresh(s, b) && Preferred(b, s.Get(s.head))
    ensures Best(With(s, b), b.id)
  {
    forall y | y in s.index ensures Preferred(b, s.index[y]) { assert !Preferred(s.index[y], s.Get(s.head)); }
  }

  lemma {:induction false} AppliedBefore(s: State, b: Block)
    requires Settled(s) && Fresh(s, b)
    ensures Applied(With(s, b))
  {
    var t := With(s, b);
    forall y | y in t.index && Above(t.index, t.head, y) ensures t.index[y].validated {
      NotAboveNew(s, b, s.head, y);
    }
  }

  method SwitchAndLog(db: Database, b: Block, ghost s: State)
    requires Settled(s) && Fresh(s, b) && Preferred(b, s.Get(s.head)) && db.S() == With(s, b)
    modifies db
    ensures Switched(With(s, b), b.id).Has(b.id) && db.S() == Logged(Switched(With(s, b), b.id))
  {
    AddedToSettled(s, b);
    BetterIsBest(s, b);
    AppliedBefore(s, b);
    SwitchedSettles(With(s, b), b.id);
    SwitchForksTo(db, b.id);
    LogIrreversible(db);
  }

  method PushBlock(db: Database, b: Block) returns (r: Result)
    requires Settled(db.S()) && Linked(b) && b.lib < b.id.num
    modifies db
    ensures (db.S(), r) == Pushed(old(db.S()), b)
  {
    if b.id in db.index { return Failed(DuplicateBlock); }
    if b.previous != db.root.id && b.previous !in db.index { return Failed(UnlinkableBlock); }
    ghost var s := db.S();
    var c := b.(validated := false);
    IsFresh(s, c);
    PushedIs(s, b);
    AddedToSettled(s, c);
    PendingAfterAdd(s, c);
    r := db.Add(c, false);
    var x := PendingHeadOf(db);
    if x != db.head { SwitchAndLog(db, c, s); }
  }

  // ---- push_blocks ----

  method PushBlocks(chain: seq<Block>, db: Database, limit: nat) returns (ok: bool)
    requires Settled(db.S()) && IsChain(chain)
    modifies db
    ensures (db.S(), ok) == CaughtUp(chain, old(db.S()), if limit < |chain| then limit else |chain|)
  {
    var n := if limit < |chain| then limit else |chain|;
    ghost var start := db.S();
    while db.head.num < n
      invariant Settled(db.S())
      invariant CaughtUp(chain, start, n) == CaughtUp(chain, db.S(), n)
      decreases n - db.head.num, if db.head.num < n && chain[db.head.num].id in db.index then 0 else 1
    {
      ghost var s := db.S();
      var b := chain[db.head.num];
      PushedExact(s, b);
      CaughtUpStep(chain, s, n);
      var r := PushBlock(db, b);
      if r != Done { return false; }
    }
    return true;
  }
}
