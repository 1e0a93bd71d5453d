/** Merkle roots: the batch computation and the incremental tree that must agree with it.

    `h(l, r)` stands for the hash of the canonical pair of `l` and `r`; everything holds for every `h`. */
module Merkle {
  import opened Powers
  import opened Sequences

  // ---- Reference: the root by levels ----

  /** One level up: neighbours are paired, a last odd one with itself. */
  function LevelUp<D>(h: (D, D) -> D, s: seq<D>): (t: seq<D>)
    ensures |t| == (|s| + 1) / 2
  {
    if s == [] then []
    else if |s| == 1 then [h(s[0], s[0])]
    else [h(s[0], s[1])] + LevelUp(h, s[2..])
  }

  function Root<D>(h: (D, D) -> D, s: seq<D>): D
    requires s != []
    decreases |s|
  {
    if |s| == 1 then s[0] else Root(h, LevelUp(h, s))
  }

  /** The nodes above `s` that are complete, that is, have both children. */
  function Pairs<D>(h: (D, D) -> D, s: seq<D>): (t: seq<D>)
    ensures |t| == |s| / 2
  {
    if |s| < 2 then [] else [h(s[0], s[1])] + Pairs(h, s[2..])
  }

  /** The roots of the maximal complete subtrees over `s`, smallest first. */
  function Realized<D>(h: (D, D) -> D, s: seq<D>): seq<D>
    decreases |s|
  {
    if s == [] then []
    else (if |s| % 2 == 1 then [s[|s|-1]] else []) + Realized(h, Pairs(h, s))
  }

  /** What the incremental tree stores for the leaves `s`. */
  function Active<D(==)>(h: (D, D) -> D, s: seq<D>): seq<D> {
    if s == [] then []
    else if IsPow2(|s|) then Realized(h, s)
    else Realized(h, s) + [Root(h, s)]
  }

  predicate IsPow2(n: nat) {
    n == 1 || (n > 1 && n % 2 == 0 && IsPow2(n / 2))
  }

  lemma {:induction false} LevelUpAt<D>(h: (D, D) -> D, s: seq<D>, k: nat)
    requires k < |LevelUp(h, s)|
    ensures LevelUp(h, s)[k] == h(s[2 * k], s[if 2 * k + 1 < |s| then 2 * k + 1 else 2 * k])
  {
    if k > 0 { LevelUpAt(h, s[2..], k - 1); }
  }

  /** The batch computation. */
  method BatchRoot<D>(h: (D, D) -> D, empty: D, digests: seq<D>) returns (root: D)
    ensures root == if digests == [] then empty else Root(h, digests)
  {
    if |digests| == 0 { return empty; }
    var ids := digests;
    while |ids| > 1
      invariant ids != [] && Root(h, ids) == Root(h, digests)
      decreases |ids|
    {
      ids := PairInPlace(h, ids);
    }
    return ids[0];
  }

  /** One pass of the outer loop: pad, hash each pair into the front half, resize. */
  method PairInPlace<D>(h: (D, D) -> D, level: seq<D>) returns (ids: seq<D>)
    requires level != []
    ensures ids == LevelUp(h, level)
  {
    ids := level;
    if |ids| % 2 != 0 { ids := ids + [ids[|ids| - 1]]; }
    ghost var padded := ids;
    var i := 0;
    while i < |ids| / 2
      invariant 0 <= i <= |ids| / 2 && |ids| == |padded|
      invariant forall k :: 0 <= k < i ==> ids[k] == LevelUp(h, level)[k]
      invariant forall k :: i <= k < |ids| ==> ids[k] == padded[k]
    {
      LevelUpAt(h, level, i);
      ids := ids[i := h(ids[2 * i], ids[2 * i + 1])];
      i := i + 1;
    }
    ids := ids[..|ids| / 2];
  }

  // ---- Realized nodes are final ----

  /** The complete nodes `k` levels above the leaves `s`. */
  function Complete<D>(h: (D, D) -> D, s: seq<D>, k: nat): seq<D>
    decreases k
  {
    if k == 0 then s else Complete(h, Pairs(h, s), k - 1)
  }

  lemma {:induction false} PairsPrefix<D>(h: (D, D) -> D, s: seq<D>, t: seq<D>)
    requires s <= t
    ensures Pairs(h, s) <= Pairs(h, t)
  {
    if |s| >= 2 {
      assert s[2..] <= t[2..];
      PairsPrefix(h, s[2..], t[2..]);
    }
  }

  /** Once all leaves below a node exist, no later leaf changes it. */
  lemma {:induction false} CompleteIsFinal<D>(h: (D, D) -> D, s: seq<D>, t: seq<D>, k: nat)
    requires s <= t
    ensures Complete(h, s, k) <= Complete(h, t, k)
    decreases k
  {
    if k > 0 {
      PairsPrefix(h, s, t);
      CompleteIsFinal(h, Pairs(h, s), Pairs(h, t), k - 1);
    }
  }

  // ---- calculate_max_depth ----

  /** The least power of two that is not below `n`. */
  function BitCeil(n: nat): nat
  {
    if n <= 1 then 1 else 2 * BitCeil((n + 1) / 2)
  }

  function MaxDepth(n: nat): nat { if n == 0 then 0 else BitWidth(BitCeil(n)) }

  /** Appending to `n` leaves climbs as many levels as `n` has binary digits. */
  lemma {:induction false} DepthIsBitWidth(n: nat)
    ensures MaxDepth(n + 1) == 1 + BitWidth(n)
  {
    if n > 0 {
      DepthIsBitWidth(n / 2);
      assert (n + 2) / 2 == n / 2 + 1;
      var half := BitCeil(n / 2 + 1);
      assert half > 0 by { BitCeilPositive(n / 2 + 1); }
      assert BitCeil(n + 1) == 2 * half && BitWidth(2 * half) == 1 + BitWidth(half);
    }
  }

  lemma BitCeilPositive(n: nat)
    ensures BitCeil(n) > 0
  {
  }

  // ---- Pairing and the last element ----

  lemma {:induction false} PairsAppendEven<D>(h: (D, D) -> D, s: seq<D>, x: D)
    requires |s| % 2 == 0
    ensures Pairs(h, s + [x]) == Pairs(h, s)
    ensures LevelUp(h, s + [x]) == Pairs(h, s) + [h(x, x)]
  {
    var t := s + [x];
    if s != [] {
      assert t[0] == s[0] && t[1] == s[1] && t[2..] == s[2..] + [x];
      PairsAppendEven(h, s[2..], x);
    }
  }

  lemma {:induction false} PairsAppendOdd<D>(h: (D, D) -> D, s: seq<D>, x: D)
    requires |s| % 2 == 1
    ensures Pairs(h, s + [x]) == Pairs(h, s) + [h(s[|s|-1], x)]
    ensures LevelUp(h, s + [x]) == Pairs(h, s + [x])
  {
    var t := s + [x];
    if |s| == 1 {
      assert t[2..] == [];
    } else {
      assert t[0] == s[0] && t[1] == s[1] && t[2..] == s[2..] + [x];
      assert s[2..][|s| - 3] == s[|s| - 1];
      PairsAppendOdd(h, s[2..], x);
      var first, rest, last := h(s[0], s[1]), Pairs(h, s[2..]), h(s[|s| - 1], x);
      assert [first] + (rest + [last]) == [first] + rest + [last];
    }
  }

  // ---- The collapse loop of append ----

  /** What the loop leaves behind, started over the complete nodes `p` of some level with node `top`
      next to them: everything it still pushes. */
  function Collapsed<D(==)>(h: (D, D) -> D, p: seq<D>, top: D, partial: bool): seq<D> {
    if partial then Realized(h, p) + [Root(h, p + [top])] else Active(h, p + [top])
  }

  lemma {:induction false} RootUp<D>(h: (D, D) -> D, s: seq<D>)
    requires |s| > 1
    ensures Root(h, s) == Root(h, LevelUp(h, s))
  {
  }

  lemma {:induction false} RealizedEven<D>(h: (D, D) -> D, s: seq<D>)
    requires |s| % 2 == 0
    ensures Realized(h, s) == Realized(h, Pairs(h, s))
  {
    assert [] + Realized(h, Pairs(h, s)) == Realized(h, Pairs(h, s));
  }

  lemma {:induction false} RealizedOdd<D>(h: (D, D) -> D, s: seq<D>)
    requires |s| % 2 == 1
    ensures Realized(h, s) == [s[|s|-1]] + Realized(h, Pairs(h, s))
  {
  }

  lemma {:induction false} RealizedAppendEven<D>(h: (D, D) -> D, p: seq<D>, top: D)
    requires |p| % 2 == 0
    ensures Realized(h, p + [top]) == [top] + Realized(h, p)
  {
    PairsAppendEven(h, p, top);
    RealizedOdd(h, p + [top]);
    RealizedEven(h, p);
  }

  lemma {:induction false} RealizedAppendOdd<D>(h: (D, D) -> D, p: seq<D>, top: D)
    requires |p| % 2 == 1
    ensures Realized(h, p + [top]) == Realized(h, Pairs(h, p) + [h(p[|p|-1], top)])
  {
    PairsAppendOdd(h, p, top);
    RealizedEven(h, p + [top]);
  }

  lemma {:induction false} RootAppend<D>(h: (D, D) -> D, p: seq<D>, top: D)
    requires p != []
    ensures Root(h, p + [top]) == Root(h, Pairs(h, p) + [h(if |p| % 2 == 0 then top else p[|p|-1], top)])
  {
    RootUp(h, p + [top]);
    if |p| % 2 == 0 { PairsAppendEven(h, p, top); } else { PairsAppendOdd(h, p, top); }
  }

  lemma {:induction false} CollapseLeft<D>(h: (D, D) -> D, p: seq<D>, top: D, partial: bool)
    requires |p| % 2 == 0 && p != []
    ensures Collapsed(h, p, top, partial) ==
            (if partial then [] else [top]) + Collapsed(h, Pairs(h, p), h(top, top), true)
  {
    var full, root := Realized(h, p), Root(h, p + [top]);
    assert Collapsed(h, Pairs(h, p), h(top, top), true) == full + [root] by {
      RootAppend(h, p, top);
      RealizedEven(h, p);
    }
    if partial {
      assert [] + (full + [root]) == full + [root];
    } else {
      RealizedAppendEven(h, p, top);
      assert Active(h, p + [top]) == [top] + full + [root];
      assert [top] + full + [root] == [top] + (full + [root]);
    }
  }

  lemma {:induction false} CollapseRight<D>(h: (D, D) -> D, p: seq<D>, top: D, partial: bool)
    requires |p| % 2 == 1
    ensures Collapsed(h, p, top, partial) ==
            (if partial then [p[|p|-1]] else []) + Collapsed(h, Pairs(h, p), h(p[|p|-1], top), partial)
  {
    if partial { CollapseRightPartial(h, p, top); } else { CollapseRightComplete(h, p, top); }
  }

  lemma {:induction false} CollapseRightPartial<D>(h: (D, D) -> D, p: seq<D>, top: D)
    requires |p| % 2 == 1
    ensures Collapsed(h, p, top, true) == [p[|p|-1]] + Collapsed(h, Pairs(h, p), h(p[|p|-1], top), true)
  {
    RootAppend(h, p, top);
    RealizedOdd(h, p);
    var left, rest, root := p[|p|-1], Realized(h, Pairs(h, p)), Root(h, p + [top]);
    assert ([left] + rest) + [root] == [left] + (rest + [root]);
  }

  lemma {:induction false} CollapseRightComplete<D>(h: (D, D) -> D, p: seq<D>, top: D)
    requires |p| % 2 == 1
    ensures Collapsed(h, p, top, false) == [] + Collapsed(h, Pairs(h, p), h(p[|p|-1], top), false)
  {
    RootAppend(h, p, top);
    RealizedAppendOdd(h, p, top);
    var s, t := p + [top], Pairs(h, p) + [h(p[|p|-1], top)];
    assert |t| == |s| / 2 && |s| % 2 == 0;
    assert Active(h, s) == Active(h, t);
  }

  lemma {:induction false} CollapsedAlone<D>(h: (D, D) -> D, top: D, partial: bool)
    ensures Collapsed(h, [], top, partial) == [top]
  {
    assert [] + [top] == [top];
    RealizedOdd(h, [top]);
  }

  /** The root is always the last active node; over a power of two it is the only one. */
  lemma {:induction false} ActiveLast<D>(h: (D, D) -> D, s: seq<D>)
    requires s != []
    ensures Active(h, s) != [] && Active(h, s)[|Active(h, s)| - 1] == Root(h, s)
  {
    if IsPow2(|s|) { RealizedPow2(h, s); }
  }

  lemma {:induction false} RealizedPow2<D>(h: (D, D) -> D, s: seq<D>)
    requires IsPow2(|s|)
    ensures Realized(h, s) == [Root(h, s)]
    decreases |s|
  {
    if |s| == 1 {
      RealizedOdd(h, s);
    } else {
      RealizedEven(h, s);
      RootUp(h, s);
      LevelUpEven(h, s);
      RealizedPow2(h, Pairs(h, s));
    }
  }

  lemma {:induction false} LevelUpEven<D>(h: (D, D) -> D, s: seq<D>)
    requires |s| % 2 == 0
    ensures LevelUp(h, s) == Pairs(h, s)
  {
    if s != [] { LevelUpEven(h, s[2..]); }
  }

  function Ones(n: nat): nat { if n == 0 then 0 else n % 2 + Ones(n / 2) }

  /** The loop of append as a recursion: the nodes it pushes, the top last. */
  function Collapse<D>(h: (D, D) -> D, index: nat, active: seq<D>, top: D, partial: bool): (s: seq<D>)
    requires Ones(index) <= |active|
    ensures s != []
    decreases index
  {
    if index == 0 then [top]
    else if index % 2 == 0 then
      (if partial then [] else [top]) + Collapse(h, index / 2, active, h(top, top), true)
    else
      (if partial then [active[0]] else []) + Collapse(h, index / 2, active[1..], h(active[0], top), partial)
  }

  lemma {:induction false} ExactLeft<D>(h: (D, D) -> D, p: seq<D>, active: seq<D>, top: D, partial: bool)
    requires |p| % 2 == 0 && p != [] && Ones(|p| / 2) <= |active|
    requires Collapse(h, |p| / 2, active, h(top, top), true) == Collapsed(h, Pairs(h, p), h(top, top), true)
    ensures Ones(|p|) <= |active| && Collapse(h, |p|, active, top, partial) == Collapsed(h, p, top, partial)
  {
    CollapseLeft(h, p, top, partial);
  }

  lemma {:induction false} ExactRight<D>(h: (D, D) -> D, p: seq<D>, active: seq<D>, top: D, partial: bool)
    requires |p| % 2 == 1 && active != [] && active[0] == p[|p|-1] && Ones(|p| / 2) <= |active[1..]|
    requires Collapse(h, |p| / 2, active[1..], h(active[0], top), partial)
          == Collapsed(h, Pairs(h, p), h(active[0], top), partial)
    ensures Ones(|p|) <= |active| && Collapse(h, |p|, active, top, partial) == Collapsed(h, p, top, partial)
  {
    CollapseRight(h, p, top, partial);
  }

  lemma {:induction false} CollapseExact<D>(h: (D, D) -> D, p: seq<D>, active: seq<D>, top: D, partial: bool)
    requires Realized(h, p) <= active
    ensures Ones(|p|) <= |active|
    ensures Collapse(h, |p|, active, top, partial) == Collapsed(h, p, top, partial)
    decreases |p|
  {
    if p == [] {
      CollapsedAlone(h, top, partial);
    } else if |p| % 2 == 0 {
      RealizedEven(h, p);
      CollapseExact(h, Pairs(h, p), active, h(top, top), true);
      ExactLeft(h, p, active, top, partial);
    } else {
      RealizedOdd(h, p);
      CollapseExact(h, Pairs(h, p), active[1..], h(active[0], top), partial);
      ExactRight(h, p, active, top, partial);
    }
  }

  lemma {:induction false} AppendExact<D>(h: (D, D) -> D, leaves: seq<D>, digest: D)
    ensures Ones(|leaves|) <= |Active(h, leaves)|
    ensures Collapse(h, |leaves|, Active(h, leaves), digest, false) == Active(h, leaves + [digest])
  {
    CollapseExact(h, leaves, Active(h, leaves), digest, false);
  }

  /** The loop of append. */
  method Climb<D>(h: (D, D) -> D, nodeCount: nat, activeNodes: seq<D>, digest: D) returns (updated: seq<D>)
    requires Ones(nodeCount) <= |activeNodes|
    ensures updated == Collapse(h, nodeCount, activeNodes, digest, false)
  {
    var partial := false;
    var depth := MaxDepth(nodeCount + 1) - 1;
    DepthIsBitWidth(nodeCount);
    var index := nodeCount;
    var top := digest;
    var at := 0;
    updated := [];
    ghost var goal := Collapse(h, index, activeNodes, top, partial);
    assert activeNodes[0..] == activeNodes && [] + goal == goal;
    while depth > 0
      invariant depth == BitWidth(index)
      invariant at <= |activeNodes| && Ones(index) <= |activeNodes[at..]|
      invariant goal == updated + Collapse(h, index, activeNodes[at..], top, partial)
    {
      if index % 2 == 0 {
        Regroup(updated, if partial then [] else [top], Collapse(h, index / 2, activeNodes[at..], h(top, top), true));
        if !partial { updated := updated + [top]; }
        top := h(top, top);
        partial := true;
      } else {
        var left := activeNodes[at];
        assert activeNodes[at..][0] == left && activeNodes[at..][1..] == activeNodes[at+1..];
        ghost var above := Collapse(h, index / 2, activeNodes[at+1..], h(left, top), partial);
        Regroup(updated, if partial then [left] else [], above);
        at := at + 1;
        if partial { updated := updated + [left]; }
        top := h(left, top);
      }
      depth := depth - 1;
      index := index / 2;
    }
    updated := updated + [top];
  }

  class IncrementalMerkle<D(==)> {
    const h: (D, D) -> D
    const empty: D
    var nodeCount: nat
    var activeNodes: seq<D>
    ghost var leaves: seq<D>

    ghost predicate Valid()
      reads this
    {
      nodeCount == |leaves| && activeNodes == Active(h, leaves)
    }

    constructor (h: (D, D) -> D, empty: D)
      ensures Valid() && leaves == [] && this.h == h && this.empty == empty
    {
      this.h, this.empty := h, empty;
      nodeCount, activeNodes := 0, [];
      leaves := [];
    }

    method Append(digest: D) returns (root: D)
      requires Valid()
      modifies this
      ensures Valid() && leaves == old(leaves) + [digest]
      ensures root == Root(h, leaves)
    {
      AppendExact(h, leaves, digest);
      activeNodes := Climb(h, nodeCount, activeNodes, digest);
      nodeCount := nodeCount + 1;
      leaves := leaves + [digest];
      ActiveLast(h, leaves);
      root := activeNodes[|activeNodes| - 1];
    }

    method GetRoot() returns (root: D)
      requires Valid()
      ensures root == if leaves == [] then empty else Root(h, leaves)
    {
      if nodeCount > 0 {
        ActiveLast(h, leaves);
        root := activeNodes[|activeNodes| - 1];
      } else {
        root := empty;
      }
    }
  }
}
