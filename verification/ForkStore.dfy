/** Writing the fork database to its file on close and reading it back on open. */
module ForkStore {
  import opened Sequences
  import opened ForkTree
  import opened ForkDatabase
  import ForkCode

  datatype File = File(root: Block, blocks: seq<Block>, head: BlockId)

  /** The blocks in the order of the by_lib_block_num index. */
  ghost function Ordered(m: Index): seq<Block>
    decreases |m|
  {
    if m == map[] then [] else [m[First(m)]] + Ordered(m - {First(m)})
  }

  ghost function Validated(m: Index): Index {
    map x | x in m && m[x].validated :: m[x]
  }

  /** Both halves of the index, walked backwards and merged so that preferred blocks come late. */
  function Merge(u: seq<Block>, v: seq<Block>): seq<Block> {
    if u == [] then v
    else if v == [] then u
    else if Preferred(v[0], u[0]) then [u[0]] + Merge(u[1..], v)
    else [v[0]] + Merge(u, v[1..])
  }

  ghost function Saved(s: State): File {
    File(s.root, Merge(Reversed(Ordered(Unvalidated(s.index))), Reversed(Ordered(Validated(s.index)))), s.head)
  }

  ghost function AddedAll(s: State, blocks: seq<Block>): (State, Result)
    decreases |blocks|
  {
    if blocks == [] then (s, Done)
    else
      var (t, r) := Added(s, blocks[0], false);
      if r == Done then AddedAll(t, blocks[1..]) else (t, r)
  }

  ghost function Loaded(f: File): Option<State> {
    var (s, r) := AddedAll(Reset(f.root), f.blocks);
    if r != Done || !s.Has(f.head) then None
    else
      var t := s.(head := f.head);
      if t.index == map[] || !t.index[First(t.index)].validated then
        if t.head == t.root.id then Some(t) else None
      else if Preferred(t.index[First(t.index)], t.Get(t.head)) then None
      else Some(t)
  }

  /** What is written next, and what is left to write. */
  lemma {:induction false} MergeTakesOld(out: seq<Block>, u: seq<Block>, v: seq<Block>)
    requires u != [] && (v == [] || Preferred(v[0], u[0]))
    ensures out + Merge(u, v) == (out + [u[0]]) + Merge(u[1..], v)
  {
    assert u == [u[0]] + u[1..];
    assert out + ([u[0]] + Merge(u[1..], v)) == (out + [u[0]]) + Merge(u[1..], v);
  }

  lemma {:induction false} MergeTakesNew(out: seq<Block>, u: seq<Block>, v: seq<Block>)
    requires v != [] && (u == [] || !Preferred(v[0], u[0]))
    ensures out + Merge(u, v) == (out + [v[0]]) + Merge(u, v[1..])
  {
    assert v == [v[0]] + v[1..];
    assert out + ([v[0]] + Merge(u, v[1..])) == (out + [v[0]]) + Merge(u, v[1..]);
  }

  /** The loop of close over its two reverse iterators. */
  method Written(unvalidated: seq<Block>, validated: seq<Block>) returns (out: seq<Block>)
    ensures out == Merge(unvalidated, validated)
  {
    out := [];
    var u, v := unvalidated, validated;
    while u != [] || v != []
      invariant Merge(unvalidated, validated) == out + Merge(u, v)
      decreases |u| + |v|
    {
      if u != [] && (v == [] || Preferred(v[0], u[0])) {
        MergeTakesOld(out, u, v);
        out, u := out + [u[0]], u[1..];
      } else {
        MergeTakesNew(out, u, v);
        out, v := out + [v[0]], v[1..];
      }
    }
  }

  /** The loop of open that adds the blocks of the file. */
  method AddEach(db: ForkCode.Database, blocks: seq<Block>) returns (r: Result)
    modifies db
    ensures (db.S(), r) == AddedAll(old(db.S()), blocks)
  {
    ghost var start := db.S();
    assert blocks[0..] == blocks;
    for i := 0 to |blocks|
      invariant AddedAll(start, blocks) == AddedAll(db.S(), blocks[i..])
    {
      assert blocks[i..][0] == blocks[i] && blocks[i..][1..] == blocks[i+1..];
      r := db.Add(blocks[i], false);
      if r != Done { return; }
    }
    return Done;
  }

  /** Opening: the database to work on, or a failure. */
  method Open(f: File) returns (ok: bool, db: ForkCode.Database)
    ensures fresh(db)
    ensures Loaded(f) == if ok then Some(db.S()) else None
  {
    db := new ForkCode.Database(f.root);
    var added := AddEach(db, f.blocks);
    if added != Done || (f.head != db.root.id && f.head !in db.index) { return false, db; }
    db.head := f.head;
    if db.index == map[] { return db.head == db.root.id, db; }
    var candidate := db.Best();
    if !db.index[candidate].validated { return db.head == db.root.id, db; }
    var head := if db.head == db.root.id then db.root else db.index[db.head];
    return !Preferred(db.index[candidate], head), db;
  }

  // ---- Any file ----

  /** Block `i` can be added: its parent is the root, or there, or earlier in the list, and its id is new. */
  ghost predicate Fits(s: State, blocks: seq<Block>, i: nat)
    requires i < |blocks|
  {
    && (s.Has(blocks[i].previous) || exists j :: 0 <= j < i && blocks[j].id == blocks[i].previous)
    && blocks[i].id !in s.index && forall j :: 0 <= j < i ==> blocks[j].id != blocks[i].id
  }

  ghost predicate AllFit(s: State, blocks: seq<Block>) { forall i :: 0 <= i < |blocks| ==> Fits(s, blocks, i) }

  lemma {:induction false} FitsNext(s: State, blocks: seq<Block>, i: nat)
    requires 0 < i < |blocks| && Added(s, blocks[0], false).1 == Done
    ensures Fits(s, blocks, i) <==> Fits(Added(s, blocks[0], false).0, blocks[1..], i - 1)
  {
    var t, rest := Added(s, blocks[0], false).0, blocks[1..];
    assert forall j :: 0 <= j < |rest| ==> rest[j] == blocks[j+1];
    if Fits(s, blocks, i) && !s.Has(blocks[i].previous) {
      var j :| 0 <= j < i && blocks[j].id == blocks[i].previous;
      assert j > 0 ==> rest[j-1].id == blocks[i].previous;
    }
    if Fits(t, rest, i - 1) {
      forall j | 0 <= j < i ensures blocks[j].id != blocks[i].id {
        if j > 0 { assert rest[j-1].id != rest[i-1].id; }
      }
      if !t.Has(rest[i-1].previous) {
        var j :| 0 <= j < i - 1 && rest[j].id == rest[i-1].previous;
        assert blocks[j+1].id == blocks[i].previous;
      }
    }
  }

  /** `t` holds the blocks of `s` and those of the list, and no others. */
  ghost predicate Joins(s: State, blocks: seq<Block>, t: State) {
    && t.root == s.root
    && (forall x <- t.index :: (x in s.index && t.index[x] == s.index[x]) || t.index[x] in blocks)
    && (forall x <- s.index :: x in t.index && t.index[x] == s.index[x])
    && (forall b <- blocks :: b.id in t.index && t.index[b.id] == b)
  }

  lemma {:induction false} JoinsOn(s: State, b: Block, rest: seq<Block>, t: State)
    requires Added(s, b, false).1 == Done && Joins(Added(s, b, false).0, rest, t)
    ensures Joins(s, [b] + rest, t)
  {
    var u := Added(s, b, false).0;
    assert b.id in u.index && u.index[b.id] == b;
  }

  /** A list of blocks can be added exactly when each of them fits, and then exactly they are added. */
  lemma {:induction false} AddedAllExact(s: State, blocks: seq<Block>)
    ensures AddedAll(s, blocks).1 == Done <==> AllFit(s, blocks)
    ensures AddedAll(s, blocks).1 == Done ==> Joins(s, blocks, AddedAll(s, blocks).0)
    decreases |blocks|
  {
    if blocks != [] {
      var b, rest := blocks[0], blocks[1..];
      assert blocks == [b] + rest;
      assert Added(s, b, false).1 == Done <==> Fits(s, blocks, 0);
      if Added(s, b, false).1 == Done {
        var u := Added(s, b, false).0;
        AddedAllExact(u, rest);
        AllFitNext(s, blocks);
        if AddedAll(u, rest).1 == Done { JoinsOn(s, b, rest, AddedAll(u, rest).0); }
      }
    }
  }

  lemma {:induction false} AllFitNext(s: State, blocks: seq<Block>)
    requires blocks != [] && Added(s, blocks[0], false).1 == Done
    ensures AllFit(s, blocks) <==> Fits(s, blocks, 0) && AllFit(Added(s, blocks[0], false).0, blocks[1..])
  {
    var t, rest := Added(s, blocks[0], false).0, blocks[1..];
    forall i | 0 < i < |blocks| ensures Fits(s, blocks, i) <==> Fits(t, rest, i - 1) { FitsNext(s, blocks, i); }
    if AllFit(t, rest) && Fits(s, blocks, 0) {
      forall i | 0 <= i < |blocks| ensures Fits(s, blocks, i) { if i > 0 { assert Fits(t, rest, i - 1); } }
    }
    if AllFit(s, blocks) {
      forall i | 0 <= i < |rest| ensures Fits(t, rest, i) { assert Fits(s, blocks, i + 1); }
    }
  }

  /** The file names `h` as its head. */
  ghost predicate IsHead(f: File, h: Block) {
    if f.head == f.root.id then h == f.root.(validated := true) else h in f.blocks && h.id == f.head
  }

  /** No validated block of the file beats its head; without a validated one the head is the root. */
  ghost predicate Leads(f: File, h: Block) {
    && (forall b <- f.blocks :: b.validated ==> !Preferred(b, h))
    && ((forall b <- f.blocks :: !b.validated) ==> f.head == f.root.id)
  }

  ghost predicate Openable(f: File, h: Block) { AllFit(Reset(f.root), f.blocks) && IsHead(f, h) && Leads(f, h) }

  lemma {:induction false} HeadFound(f: File, s: State)
    requires Joins(Reset(f.root), f.blocks, s)
    ensures s.Has(f.head) <==> exists h :: IsHead(f, h)
    ensures forall h :: IsHead(f, h) ==> s.Has(f.head) && s.Get(f.head) == h
  {
    if s.Has(f.head) { assert IsHead(f, s.Get(f.head)); }
  }

  lemma {:induction false} FirstLeads(f: File, s: State, h: Block)
    requires Joins(Reset(f.root), f.blocks, s)
    ensures Leads(f, h) <==>
            if s.index == map[] || !s.index[First(s.index)].validated then f.head == f.root.id
            else !Preferred(s.index[First(s.index)], h)
  {
    if s.index != map[] {
      var best := First(s.index);
      assert s.index[best] in f.blocks;
      if !s.index[best].validated {
        forall b | b in f.blocks ensures !b.validated { assert b.id in s.index; }
      } else {
        forall b | b in f.blocks && b.validated ensures Preferred(b, h) ==> Preferred(s.index[best], h) {
          assert s.index[b.id] == b;
        }
      }
    } else {
      assert forall b <- f.blocks :: b.id in s.index;
    }
  }

  /** Any file can be opened exactly when each block's parent is the root or comes before it, no id is repeated,
      the head is there, and no validated block beats it; then the database is what the file lists. */
  lemma {:induction false} LoadedExactly(f: File)
    ensures Loaded(f).Some? <==> exists h :: Openable(f, h)
    ensures Loaded(f).Some? ==> Loaded(f).value.head == f.head && Joins(Reset(f.root), f.blocks, Loaded(f).value)
  {
    AddedAllExact(Reset(f.root), f.blocks);
    if AllFit(Reset(f.root), f.blocks) {
      var s := AddedAll(Reset(f.root), f.blocks).0;
      HeadFound(f, s);
      if s.Has(f.head) {
        var h := s.Get(f.head);
        FirstLeads(f, s, h);
        assert IsHead(f, h);
        assert Openable(f, h) <==> Leads(f, h);
      }
    }
  }

  /** A file whose head is not validated is not refused: what is opened keeps the invariant exactly when the
      head is validated. */
  lemma {:induction false} LoadedKeepsInv(f: File)
    requires Loaded(f).Some? && forall b <- f.blocks :: Linked(b)
    ensures var t := Loaded(f).value; t.Has(t.head) && (Inv(t) <==> t.Get(t.head).validated)
  {
    var s := AddedAll(Reset(f.root), f.blocks).0;
    AddedAllKeepsInv(Reset(f.root), f.blocks);
    var t := Loaded(f).value;
    assert t == s.(head := f.head);
    if t.index != map[] && !t.index[First(t.index)].validated {
      assert forall x <- t.index :: !t.index[x].validated;
    }
  }

  lemma {:induction false} AddedAllKeepsInv(s: State, blocks: seq<Block>)
    requires Inv(s) && forall b <- blocks :: Linked(b)
    ensures Inv(AddedAll(s, blocks).0)
    decreases |blocks|
  {
    if blocks != [] {
      assert blocks[0] in blocks;
      AddedKeepsInv(s, blocks[0], false);
      if Added(s, blocks[0], false).1 == Done { AddedAllKeepsInv(Added(s, blocks[0], false).0, blocks[1..]); }
    }
  }

  /** Such a file: a validated block on the root, and on it the head, which is not. */
  lemma {:induction false} UnvalidatedHeadOpens(root: Block, a: Block, b: Block)
    requires Linked(a) && Linked(b) && a.previous == root.id && b.previous == a.id
    requires a.validated && !b.validated && b.lib >= a.lib
    ensures var t := Loaded(File(root, [a, b], b.id)); t.Some? && !Inv(t.value)
  {
    var f := File(root, [a, b], b.id);
    assert Fits(Reset(root), f.blocks, 0);
    assert f.blocks[0].id == f.blocks[1].previous;
    assert Fits(Reset(root), f.blocks, 1);
    assert f.blocks[1] in f.blocks && IsHead(f, b);
    assert Openable(f, b);
    LoadedExactly(f);
    LoadedKeepsInv(f);
    assert b in f.blocks;
  }

  // ---- The file lists every block once, less preferred blocks first ----

  /** `blocks` is `m`, each block once. */
  ghost predicate Lists(m: Index, blocks: seq<Block>) {
    && (forall b <- blocks :: b.id in m && m[b.id] == b)
    && (forall x <- m :: m[x] in blocks)
    && Distinct(blocks)
  }

  ghost predicate Ascending(blocks: seq<Block>) {
    forall i, j :: 0 <= i < j < |blocks| ==> !Preferred(blocks[i], blocks[j])
  }

  ghost predicate Descending(blocks: seq<Block>) {
    forall i, j :: 0 <= i < j < |blocks| ==> !Preferred(blocks[j], blocks[i])
  }

  lemma {:induction false} OrderedLists(m: Index, flag: bool)
    requires forall x <- m :: m[x].validated == flag
    ensures Lists(m, Ordered(m)) && Descending(Ordered(m))
    decreases |m|
  {
    if m != map[] {
      var x := First(m);
      var rest: Index := m - {x};
      OrderedLists(rest, flag);
      ListsFront(m, x, Ordered(rest), flag);
    }
  }

  lemma {:induction false} ListsFront(m: Index, x: BlockId, tail: seq<Block>, flag: bool)
    requires IsFirst(m, x) && forall y <- m :: m[y].validated == flag
    requires Lists(m - {x}, tail) && Descending(tail)
    ensures Lists(m, [m[x]] + tail) && Descending([m[x]] + tail)
  {
    var all := [m[x]] + tail;
    forall j | 1 <= j < |all| ensures all[j] != all[0] && !Preferred(all[j], all[0]) {
      assert all[j] in tail;
      assert Before(m[x], m[all[j].id]);
    }
    forall y | y in m ensures m[y] in all {
      if y != x { assert (m - {x})[y] in tail; }
    }
  }

  lemma {:induction false} ReversedMembers(blocks: seq<Block>)
    ensures forall b :: b in Reversed(blocks) <==> b in blocks
    ensures Distinct(blocks) ==> Distinct(Reversed(blocks))
  {
    var r, n := Reversed(blocks), |blocks|;
    forall b | b in blocks ensures b in r {
      var k :| 0 <= k < n && blocks[k] == b;
      assert r[n - 1 - k] == b;
    }
  }

  lemma {:induction false} ReversedLists(m: Index, blocks: seq<Block>)
    requires Lists(m, blocks) && Descending(blocks)
    ensures Lists(m, Reversed(blocks)) && Ascending(Reversed(blocks))
  {
    ReversedMembers(blocks);
    ReversedAscends(blocks);
  }

  lemma {:induction false} ReversedAscends(blocks: seq<Block>)
    requires Descending(blocks)
    ensures Ascending(Reversed(blocks))
  {
  }

  lemma {:induction false} MergeMembers(u: seq<Block>, v: seq<Block>)
    ensures forall b :: b in Merge(u, v) <==> b in u || b in v
    decreases |u| + |v|
  {
    if u != [] && v != [] {
      if Preferred(v[0], u[0]) {
        MergeMembers(u[1..], v);
        assert u == [u[0]] + u[1..];
      } else {
        MergeMembers(u, v[1..]);
        assert v == [v[0]] + v[1..];
      }
    }
  }

  lemma {:induction false} MergeSorted(u: seq<Block>, v: seq<Block>)
    requires Ascending(u) && Ascending(v) && Distinct(u) && Distinct(v)
    requires forall b <- u :: b !in v
    ensures Ascending(Merge(u, v)) && Distinct(Merge(u, v))
    decreases |u| + |v|
  {
    if u != [] && v != [] {
      if Preferred(v[0], u[0]) {
        MergeSorted(u[1..], v);
        MergeMembers(u[1..], v);
        FrontSorted(u[0], Merge(u[1..], v));
      } else {
        MergeSorted(u, v[1..]);
        MergeMembers(u, v[1..]);
        FrontSorted(v[0], Merge(u, v[1..]));
      }
    }
  }

  lemma {:induction false} FrontSorted(b: Block, rest: seq<Block>)
    requires Ascending(rest) && Distinct(rest)
    requires forall c <- rest :: c != b && !Preferred(b, c)
    ensures Ascending([b] + rest) && Distinct([b] + rest)
  {
  }

  lemma {:induction false} SavedLists(s: State)
    ensures Lists(s.index, Saved(s).blocks) && Ascending(Saved(s).blocks)
  {
    var a, b := Unvalidated(s.index), Validated(s.index);
    OrderedLists(a, false);
    OrderedLists(b, true);
    ReversedLists(a, Ordered(a));
    ReversedLists(b, Ordered(b));
    var u, v := Reversed(Ordered(a)), Reversed(Ordered(b));
    MergeMembers(u, v);
    MergeSorted(u, v);
    forall x | x in s.index ensures s.index[x] in Merge(u, v) {
      assert x in a || x in b;
    }
  }

  // ---- The round trip ----

  /** No block claims an older irreversible block than the block it is built on. */
  ghost predicate LibNeverFalls(m: Index) {
    forall x <- m :: m[x].previous in m ==> m[x].lib >= m[m[x].previous].lib
  }

  /** The part of the database that the first `k` blocks of the file restore. */
  ghost function Part(m: Index, blocks: seq<Block>, k: nat): Index
    requires k <= |blocks|
  {
    map x | x in m && m[x] in blocks[..k] :: m[x]
  }

  ghost predicate ParentsFirst(root: BlockId, m: Index, blocks: seq<Block>) {
    forall i :: 0 <= i < |blocks| ==>
      blocks[i].previous == root || (blocks[i].previous in m && m[blocks[i].previous] in blocks[..i])
  }

  lemma {:induction false} PartGrows(m: Index, blocks: seq<Block>, k: nat)
    requires Lists(m, blocks) && k < |blocks|
    ensures blocks[k].id !in Part(m, blocks, k)
    ensures Part(m, blocks, k + 1) == Part(m, blocks, k)[blocks[k].id := blocks[k]]
  {
    assert blocks[..k+1] == blocks[..k] + [blocks[k]];
    assert blocks[k] in blocks;
    assert blocks[k] !in blocks[..k];
  }

  lemma {:induction false} LoadsAll(s: State, m: Index, blocks: seq<Block>, k: nat)
    requires k <= |blocks| && Lists(m, blocks) && ParentsFirst(s.root.id, m, blocks)
    requires s.index == Part(m, blocks, k)
    ensures AddedAll(s, blocks[k..]).1 == Done
    ensures AddedAll(s, blocks[k..]).0.root == s.root && AddedAll(s, blocks[k..]).0.index == m
    decreases |blocks| - k
  {
    if k == |blocks| {
      assert blocks[..k] == blocks;
      assert Part(m, blocks, k) == m;
    } else {
      PartGrows(m, blocks, k);
      assert blocks[k..][0] == blocks[k] && blocks[k..][1..] == blocks[k+1..];
      LoadsAll(Added(s, blocks[k], false).0, m, blocks, k + 1);
    }
  }

  lemma {:induction false} LoadStops(s: State, m: Index, blocks: seq<Block>, k: nat, i: nat)
    requires k <= i < |blocks| && Lists(m, blocks) && s.index == Part(m, blocks, k)
    requires blocks[i].previous != s.root.id && blocks[i].previous in m && m[blocks[i].previous] !in blocks[..i]
    ensures AddedAll(s, blocks[k..]).1 != Done
    decreases i - k
  {
    assert blocks[k..][0] == blocks[k] && blocks[k..][1..] == blocks[k+1..];
    if k < i && Added(s, blocks[k], false).1 == Done {
      PartGrows(m, blocks, k);
      LoadStops(Added(s, blocks[k], false).0, m, blocks, k + 1, i);
    }
  }

  /** Closing and opening again restores the database exactly when irreversibility never falls along
      a branch; otherwise the file cannot be opened. */
  lemma {:induction false} RoundTrip(s: State)
    requires Inv(s)
    ensures Loaded(Saved(s)) == if LibNeverFalls(s.index) then Some(s) else None
  {
    var m, blocks, start := s.index, Saved(s).blocks, Reset(s.root);
    SavedLists(s);
    assert start.index == Part(m, blocks, 0) && start.root == s.root;
    assert blocks[0..] == blocks;
    if LibNeverFalls(m) {
      MonotoneParentsFirst(s, blocks);
      LoadsAll(start, m, blocks, 0);
      Reopened(s);
    } else {
      var x :| x in m && m[x].previous in m && m[x].lib < m[m[x].previous].lib;
      var i :| 0 <= i < |blocks| && blocks[i] == m[x];
      var parent := m[m[x].previous];
      forall j | 0 <= j < i ensures blocks[j] != parent { }
      LoadStops(start, m, blocks, 0, i);
    }
  }

  lemma {:induction false} MonotoneParentsFirst(s: State, blocks: seq<Block>)
    requires Tree(s) && LibNeverFalls(s.index) && Lists(s.index, blocks) && Ascending(blocks)
    ensures ParentsFirst(s.root.id, s.index, blocks)
  {
    forall i | 0 <= i < |blocks| && blocks[i].previous != s.root.id
      ensures blocks[i].previous in s.index && s.index[blocks[i].previous] in blocks[..i]
    {
      ParentBefore(s, blocks, i);
    }
  }

  lemma {:induction false} ParentBefore(s: State, blocks: seq<Block>, i: nat)
    requires Tree(s) && LibNeverFalls(s.index) && Lists(s.index, blocks) && Ascending(blocks)
    requires i < |blocks| && blocks[i].previous != s.root.id
    ensures blocks[i].previous in s.index && s.index[blocks[i].previous] in blocks[..i]
  {
    assert blocks[i] in blocks;
    ParentLess(s, blocks[i]);
    var parent := s.index[blocks[i].previous];
    var j :| 0 <= j < |blocks| && blocks[j] == parent;
    PreferredLater(blocks, i, j);
    assert blocks[..i][j] == parent;
  }

  lemma {:induction false} ParentLess(s: State, b: Block)
    requires Tree(s) && LibNeverFalls(s.index) && b.id in s.index && s.index[b.id] == b && b.previous != s.root.id
    ensures b.previous in s.index && Preferred(b, s.index[b.previous])
  {
    assert Linked(b);
  }

  lemma {:induction false} PreferredLater(blocks: seq<Block>, i: nat, j: nat)
    requires Ascending(blocks) && i < |blocks| && j < |blocks| && Preferred(blocks[i], blocks[j])
    ensures j < i
  {
  }

  /** The checks at the end of open pass on a database that was closed in a reachable state. */
  lemma {:induction false} Reopened(s: State)
    requires Inv(s) && AddedAll(Reset(s.root), Saved(s).blocks).1 == Done
    requires AddedAll(Reset(s.root), Saved(s).blocks).0.root == s.root
    requires AddedAll(Reset(s.root), Saved(s).blocks).0.index == s.index
    ensures Loaded(Saved(s)) == Some(s)
  {
    if s.index != map[] {
      var x := First(s.index);
      if !s.index[x].validated { assert forall y <- s.index :: !s.index[y].validated; }
    }
  }
}
