/** Block states of the fork database, their two orders, and ancestry along `previous` links. */
module ForkTree {
  import opened Sequences

  /** A block id carries its block number in its leading bytes; `hash` is the rest. */
  datatype BlockId = BlockId(num: nat, hash: nat)

  datatype Block = Block(id: BlockId, previous: BlockId, lib: nat, validated: bool)

  /** The container keys every block state by its own id. */
  type Index = m: map<BlockId, Block> | forall x <- m :: m[x].id == x witness map[]

  /** Ids are computed from the header, so a block's number is its predecessor's plus one. */
  predicate Linked(b: Block) { b.id.num == b.previous.num + 1 }

  predicate LinkedAll(m: Index) { forall x <- m :: Linked(m[x]) }

  /** first_preferred: later irreversible block, then longer chain. */
  predicate Preferred(a: Block, b: Block) {
    a.lib > b.lib || (a.lib == b.lib && a.id.num > b.id.num)
  }

  /** The order of the by_lib_block_num index: valid blocks first, then as preferred, then by id. */
  predicate Before(a: Block, b: Block) {
    if a.validated != b.validated then a.validated
    else if a.lib != b.lib then a.lib > b.lib
    else if a.id.num != b.id.num then a.id.num > b.id.num
    else a.id.hash < b.id.hash
  }

  predicate IsFirst(m: Index, x: BlockId) {
    x in m && forall y <- m :: y == x || Before(m[x], m[y])
  }

  lemma {:induction false} FirstExists(m: Index)
    requires m != map[]
    ensures exists x :: IsFirst(m, x)
    decreases |m|
  {
    var y :| y in m;
    var rest: Index := m - {y};
    if rest == map[] {
      assert m.Keys == {y} + rest.Keys;
      assert IsFirst(m, y);
    } else {
      FirstExists(rest);
      var x :| IsFirst(rest, x);
      assert forall z <- m :: z == y || (z in rest && rest[z] == m[z]);
      assert IsFirst(m, if Before(m[y], m[x]) then y else x);
    }
  }

  /** The begin() of the by_lib_block_num index. */
  ghost function First(m: Index): (x: BlockId)
    requires m != map[]
    ensures IsFirst(m, x)
  {
    FirstExists(m);
    var x :| IsFirst(m, x);
    x
  }

  lemma {:induction false} FirstUnique(m: Index, x: BlockId)
    requires IsFirst(m, x)
    ensures x == First(m)
  {
    assert IsFirst(m, First(m));
  }

  // ---- Ancestry ----

  /** `a` is `x` or is reached from `x` along previous links inside the index. */
  ghost predicate Above(m: Index, x: BlockId, a: BlockId)
    decreases x.num
  {
    x == a || (x in m && Linked(m[x]) && Above(m, m[x].previous, a))
  }

  lemma {:induction false} AboveNum(m: Index, x: BlockId, a: BlockId)
    requires Above(m, x, a)
    ensures a.num <= x.num && (a.num == x.num ==> a == x)
    decreases x.num
  {
    if x != a { AboveNum(m, m[x].previous, a); }
  }

  lemma {:induction false} AboveTrans(m: Index, x: BlockId, a: BlockId, b: BlockId)
    requires Above(m, x, a) && Above(m, a, b)
    ensures Above(m, x, b)
    decreases x.num
  {
    if x != a { AboveTrans(m, m[x].previous, a, b); }
  }

  /** Two ancestors of one block are on one line. */
  lemma {:induction false} AboveLinear(m: Index, x: BlockId, a: BlockId, b: BlockId)
    requires Above(m, x, a) && Above(m, x, b)
    ensures Above(m, a, b) || Above(m, b, a)
    decreases x.num
  {
    if x != a && x != b { AboveLinear(m, m[x].previous, a, b); }
  }

  /** The index without `id` and everything built on it. */
  ghost function Pruned(m: Index, id: BlockId): Index {
    map x | x in m && !Above(m, x, id) :: m[x]
  }

  /** Pruning leaves the ancestry of what it keeps untouched. */
  lemma {:induction false} AbovePruned(m: Index, id: BlockId, x: BlockId, a: BlockId)
    requires LinkedAll(m) && !Above(m, x, id)
    ensures Above(Pruned(m, id), x, a) <==> Above(m, x, a)
    decreases x.num
  {
    if x in m && x != a { AbovePruned(m, id, m[x].previous, a); }
  }

  /** Pruning a block and then one of its ancestors is pruning the ancestor. */
  lemma {:induction false} PrunedTwice(m: Index, a: BlockId, b: BlockId)
    requires LinkedAll(m) && Above(m, a, b)
    ensures Pruned(Pruned(m, a), b) == Pruned(m, b)
  {
    forall x | x in m ensures x in Pruned(Pruned(m, a), b) <==> x in Pruned(m, b) {
      if Above(m, x, a) { AboveTrans(m, x, a, b); } else { AbovePruned(m, a, x, b); }
    }
  }

  // ---- Paths and chains ----

  /** The blocks from `x` up to, but not including, its ancestor `a`. */
  ghost function Path(m: Index, x: BlockId, a: BlockId): seq<Block>
    requires Above(m, x, a)
    decreases x.num
  {
    if x == a then [] else [m[x]] + Path(m, m[x].previous, a)
  }

  lemma {:induction false} PathExtends(m: Index, x: BlockId, y: BlockId)
    requires Above(m, x, y) && y in m && Linked(m[y])
    ensures Above(m, x, m[y].previous) && Path(m, x, m[y].previous) == Path(m, x, y) + [m[y]]
    decreases x.num
  {
    var p := m[y].previous;
    AboveNum(m, x, y);
    if x == y {
      assert Above(m, p, p);
      assert Path(m, x, p) == [m[x]] + Path(m, p, p);
    } else {
      PathExtends(m, m[x].previous, y);
    }
  }

  /** The branch ending in `x`, oldest block first: what has been applied when `x` is the head. */
  ghost function Chain(m: Index, x: BlockId): seq<Block>
    decreases x.num
  {
    if x in m && Linked(m[x]) then Chain(m, m[x].previous) + [m[x]] else []
  }

  lemma {:induction false} ChainPath(m: Index, x: BlockId, a: BlockId)
    requires Above(m, x, a)
    ensures Chain(m, x) == Chain(m, a) + Reversed(Path(m, x, a))
    decreases x.num
  {
    if x != a {
      var p := m[x].previous;
      ChainPath(m, p, a);
      ReversedFront(m[x], Path(m, p, a));
    }
  }
}
