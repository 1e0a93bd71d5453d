/** How a block header state advances: confirmations, the proposed and the last irreversible block
    (block_header_state_legacy::next and calc_dpos_last_irreversible). */
module Dpos {
  import opened Sequences

  type Producer = nat

  const MAX_TRACKED: nat := 1024
  const TWO_32: nat := 0x1_0000_0000

  /** The part of a header state that decides irreversibility. */
  datatype Header = Header(
    num: nat,
    proposed: nat,
    lib: nat,
    schedule: seq<Producer>,
    lastProduced: map<Producer, nat>,
    implied: map<Producer, nat>,
    confirm: seq<nat>,
    pending: seq<Producer>,
    pendingLib: nat)

  // ---- The value a third into the sorted list ----

  function Behind(m: map<Producer, nat>, v: nat): set<Producer> { set q | q in m && m[q] < v }
  function UpTo(m: map<Producer, nat>, v: nat): set<Producer> { set q | q in m && m[q] <= v }

  /** `v` is what std::nth_element puts at position `k` of the values of `m`. */
  predicate IsNth(m: map<Producer, nat>, k: nat, v: nat) {
    |Behind(m, v)| <= k < |UpTo(m, v)|
  }

  lemma {:induction false} SubsetSize<T>(a: set<T>, b: set<T>)
    requires a <= b
    ensures |a| <= |b|
  {
    assert b == a + (b - a);
  }

  lemma {:induction false} LeastOf(m: map<Producer, nat>, s: set<Producer>) returns (q: Producer)
    requires s != {} && s <= m.Keys
    ensures q in s && forall r <- s :: m[q] <= m[r]
    decreases |s|
  {
    var x :| x in s;
    var rest := s - {x};
    assert s == rest + {x};
    q := x;
    if rest != {} {
      var p := LeastOf(m, rest);
      if m[p] < m[x] { q := p; }
    }
  }

  lemma {:induction false} NthFrom(m: map<Producer, nat>, k: nat, q: Producer)
    requires q in m && |Behind(m, m[q])| <= k < |m|
    ensures exists v :: IsNth(m, k, v)
    decreases |m| - |Behind(m, m[q])|
  {
    var v := m[q];
    if k >= |UpTo(m, v)| {
      var above := m.Keys - UpTo(m, v);
      assert m.Keys == UpTo(m, v) + above && |m.Keys| == |m|;
      var p := LeastOf(m, above);
      assert Behind(m, m[p]) == UpTo(m, v);
      assert Behind(m, v) + {q} <= UpTo(m, v);
      SubsetSize(Behind(m, v) + {q}, UpTo(m, v));
      NthFrom(m, k, p);
    } else {
      assert IsNth(m, k, v);
    }
  }

  lemma {:induction false} NthExists(m: map<Producer, nat>, k: nat)
    requires k < |m|
    ensures exists v :: IsNth(m, k, v)
  {
    assert |m| == |m.Keys|;
    var q := LeastOf(m, m.Keys);
    assert Behind(m, m[q]) == {};
    NthFrom(m, k, q);
  }

  ghost function Nth(m: map<Producer, nat>, k: nat): (v: nat)
    requires k < |m|
    ensures IsNth(m, k, v)
  {
    NthExists(m, k);
    var v :| IsNth(m, k, v);
    v
  }

  /** It is at least `v` exactly when no more than `k` values are smaller than `v`. */
  lemma {:induction false} NthAtLeast(m: map<Producer, nat>, k: nat, v: nat)
    requires k < |m|
    ensures Nth(m, k) >= v <==> |Behind(m, v)| <= k
  {
    var w := Nth(m, k);
    if w < v { SubsetSize(UpTo(m, w), Behind(m, v)); } else { SubsetSize(Behind(m, v), Behind(m, w)); }
  }

  // ---- The last irreversible block ----

  function Third(m: map<Producer, nat>): nat
    requires m != map[]
  {
    (|m| - 1) / 3
  }

  /** The implied numbers with the producer of the next block counted at the proposed one. */
  function Voted(implied: map<Producer, nat>, p: Producer, proposed: nat): map<Producer, nat> {
    if p in implied then implied[p := proposed] else implied
  }

  ghost function LastIrreversible(implied: map<Producer, nat>, p: Producer, proposed: nat): nat {
    var m := Voted(implied, p, proposed);
    if m == map[] then 0 else Nth(m, Third(m))
  }

  /** The producers that imply at least `v`. */
  function Implying(m: map<Producer, nat>, v: nat): set<Producer> { set q | q in m && m[q] >= v }

  lemma {:induction false} ImplyingOrBehind(m: map<Producer, nat>, v: nat)
    ensures |Implying(m, v)| + |Behind(m, v)| == |m|
  {
    assert m.Keys == Implying(m, v) + Behind(m, v) && |m.Keys| == |m|;
  }

  /** A block is irreversible exactly when more than two thirds of the producers imply it or a later one, the
      producer of the next block counted at the proposed one. */
  lemma {:induction false} LastIrreversibleExact(implied: map<Producer, nat>, p: Producer, proposed: nat, v: nat)
    ensures var m := if p in implied then implied[p := proposed] else implied;
            LastIrreversible(implied, p, proposed) >= v <==> v == 0 || 3 * |Implying(m, v)| > 2 * |m|
  {
    var m := Voted(implied, p, proposed);
    ImplyingOrBehind(m, v);
    if m != map[] {
      NthAtLeast(m, Third(m), v);
      if v == 0 { assert Behind(m, 0) == {}; }
    }
  }

  // ---- Confirmations ----

  /** The counts after confirming the last `n` tracked blocks, and the position of the block that got
      its last confirmation, or -1: that block and all before it are no longer tracked. */
  function Confirmed(counts: seq<nat>, n: nat): (seq<nat>, int)
    decreases n
  {
    if counts == [] || n == 0 then (counts, -1)
    else
      var i := |counts| - 1;
      if counts[i] <= 1 then ([], i)
      else
        var (rest, hit) := Confirmed(counts[..i], n - 1);
        (rest + [counts[i] - 1], hit)
  }

  predicate AllPositive(counts: seq<nat>) { forall i :: 0 <= i < |counts| ==> counts[i] > 0 }

  lemma {:induction false} ConfirmedFacts(counts: seq<nat>, n: nat)
    requires AllPositive(counts)
    ensures var (left, hit) := Confirmed(counts, n);
            && -1 <= hit < |counts| && |left| == |counts| - 1 - hit
            && AllPositive(left)
    decreases n
  {
    if counts != [] && n > 0 {
      var i := |counts| - 1;
      if counts[i] > 1 {
        ConfirmedFacts(counts[..i], n - 1);
      }
    }
  }

  /** The same, decrementing in place from position `i` down. */
  function Lowered(s: seq<nat>, i: int, left: nat): (seq<nat>, int)
    requires i < |s|
    decreases left
  {
    if i < 0 || left == 0 then (s, -1)
    else if s[i] <= 1 then (s[i+1..], i)
    else Lowered(s[i := s[i] - 1], i - 1, left - 1)
  }

  lemma {:induction false} ConfirmedLast(s: seq<nat>, c: nat, n: nat)
    requires n > 0
    ensures Confirmed(s + [c], n) ==
            if c <= 1 then ([], |s|) else (Confirmed(s, n - 1).0 + [c - 1], Confirmed(s, n - 1).1)
  {
    assert (s + [c])[..|s|] == s;
  }

  lemma {:induction false} LoweredIsConfirmed(s: seq<nat>, done: seq<nat>, left: nat)
    ensures Lowered(s + done, |s| - 1, left) == (Confirmed(s, left).0 + done, Confirmed(s, left).1)
    decreases left
  {
    if s != [] && left > 0 {
      var i := |s| - 1;
      var front, c := s[..i], s[i];
      assert s == front + [c];
      ConfirmedLast(front, c, left);
      LoweredStep(front, c, done, left);
      if c > 1 {
        LoweredIsConfirmed(front, [c - 1] + done, left - 1);
        Regroup(Confirmed(front, left - 1).0, [c - 1], done);
      } else {
        assert [] + done == done;
      }
    }
  }

  lemma {:induction false} LoweredStep(front: seq<nat>, c: nat, done: seq<nat>, left: nat)
    requires left > 0
    ensures Lowered(front + [c] + done, |front|, left) ==
            if c <= 1 then (done, |front|) else Lowered(front + ([c - 1] + done), |front| - 1, left - 1)
  {
    var s, i := front + [c] + done, |front|;
    assert s[i] == c && s[i+1..] == done;
    if c > 1 { assert s[i := c - 1] == front + ([c - 1] + done); }
  }

  /** The loop of next, on the counts it has just extended. */
  method ConfirmLoop(extended: seq<nat>, n: nat) returns (counts: seq<nat>, hit: int)
    requires AllPositive(extended)
    ensures (counts, hit) == Confirmed(extended, n)
  {
    LoweredIsConfirmed(extended, [], n);
    assert extended + [] == extended && Confirmed(extended, n).0 + [] == Confirmed(extended, n).0;
    counts := extended;
    var i := |counts| - 1;
    var left := n;
    while i >= 0 && left > 0
      invariant -1 <= i < |counts| && (forall j :: 0 <= j <= i ==> counts[j] > 0)
      invariant Lowered(counts, i, left) == Confirmed(extended, n)
    {
      counts := counts[i := counts[i] - 1];
      if counts[i] == 0 {
        return counts[i+1..], i;
      }
      i := i - 1;
      left := left - 1;
    }
    return counts, -1;
  }

  // ---- The next header ----

  function Required(schedule: seq<Producer>): nat { |schedule| * 2 / 3 + 1 }

  /** What is required is the least number above two thirds. */
  lemma {:induction false} RequiredExact(schedule: seq<Producer>, n: nat)
    ensures n >= Required(schedule) <==> 3 * n > 2 * |schedule|
  {
  }

  /** The counts with the new block's own count at the end; the oldest is dropped at the limit. */
  function Extended(h: Header): seq<nat> {
    (if |h.confirm| < MAX_TRACKED then h.confirm else h.confirm[1..]) + [Required(h.schedule)]
  }

  /** Unsigned 32-bit subtraction. */
  function Sub32(x: nat, y: nat): nat { if y <= x then x - y else (x + TWO_32 - y % TWO_32) % TWO_32 }

  /** The producer has not yet produced a block in the range it confirms. */
  predicate MayConfirm(h: Header, p: Producer, k: nat) {
    p in h.lastProduced ==> h.lastProduced[p] < Sub32(h.num + 1, k)
  }

  /** The check refuses exactly the ranges with a block in them that the producer had produced, or that it counts
      as produced; a range longer than the chain is never refused. */
  lemma {:induction false} MayConfirmExact(h: Header, p: Producer, k: nat)
    requires k < TWO_32 && (p in h.lastProduced ==> h.lastProduced[p] <= h.num)
    ensures MayConfirm(h, p, k) <==>
            p in h.lastProduced && h.lastProduced[p] >= h.num + 1 - k ==> k > h.num + 1
  {
  }

  /** The block that just got its last confirmation, if there is one. */
  function ProposedNext(h: Header, k: nat): nat {
    var hit := Confirmed(Extended(h), k + 1).1;
    if 0 <= hit < |Extended(h)| then Sub32(h.num + 1, |Extended(h)| - 1 - hit) else h.proposed
  }

  /** The pending schedule takes over. */
  ghost predicate Promotes(h: Header, p: Producer) {
    h.pending != [] && LastIrreversible(h.implied, p, h.proposed) >= h.pendingLib
  }

  /** What the producers of the pending schedule start with: their own numbers, or the irreversible one. */
  function NewLast(h: Header, lib: nat): map<Producer, nat> {
    map q | q in h.pending :: if q in h.lastProduced then h.lastProduced[q] else lib
  }

  function NewImplied(h: Header, p: Producer, lib: nat): map<Producer, nat> {
    map q | q in h.pending :: if q == p then h.proposed else if q in h.implied then h.implied[q] else lib
  }

  /** The header after a block by `p` that confirms `k` earlier blocks and may propose a schedule. */
  ghost function Next(h: Header, p: Producer, k: nat, proposal: seq<Producer>): Header {
    var lib := LastIrreversible(h.implied, p, h.proposed);
    var num := h.num + 1;
    var counts := Confirmed(Extended(h), k + 1).0;
    if Promotes(h, p) then
      Header(num, ProposedNext(h, k), lib, h.pending,
             NewLast(h, lib)[p := num], NewImplied(h, p, lib), counts, [], h.pendingLib)
    else
      Header(num, ProposedNext(h, k), lib, h.schedule, h.lastProduced[p := num], h.implied[p := h.proposed], counts,
             if h.pending == [] then proposal else h.pending,
             if h.pending == [] && proposal != [] then num else h.pendingLib)
  }

  /** The state a chain starts from: its one producer is active and, once more, pending. */
  function Genesis(e: Producer): Header {
    Header(1, 0, 0, [e], map[], map[], [], [e], 0)
  }

  // ---- Irreversibility never falls while the schedule stays ----

  /** Less than a third of the producers imply less than `v`. */
  predicate Supported(implied: map<Producer, nat>, v: nat) {
    v == 0 || 3 * |Behind(implied, v)| < |implied|
  }

  ghost predicate Sane(h: Header) {
    && h.proposed + |h.confirm| <= h.num
    && AllPositive(h.confirm)
    && (forall q <- h.implied :: h.implied[q] <= h.proposed)
    && h.lib <= h.proposed
  }

  /** Blocks become proposed in order and never past the head. */
  lemma {:induction false} ProposedGrows(h: Header, k: nat)
    requires Sane(h)
    ensures h.proposed <= ProposedNext(h, k) <= h.num + 1
    ensures ProposedNext(h, k) + |Confirmed(Extended(h), k + 1).0| <= h.num + 1
    ensures AllPositive(Confirmed(Extended(h), k + 1).0)
  {
    ConfirmedFacts(Extended(h), k + 1);
  }

  lemma {:induction false} LastIrreversibleBounds(h: Header, p: Producer)
    requires Sane(h)
    ensures LastIrreversible(h.implied, p, h.proposed) <= h.proposed
    ensures Supported(h.implied, h.lib) ==> LastIrreversible(h.implied, p, h.proposed) >= h.lib
  {
    var m := Voted(h.implied, p, h.proposed);
    LastIrreversibleExact(h.implied, p, h.proposed, h.proposed + 1);
    assert Implying(m, h.proposed + 1) == {};
    if Supported(h.implied, h.lib) {
      SubsetSize(Behind(h.implied, h.lib) - {p}, Behind(h.implied, h.lib));
      LibKeptExactly(h, p);
    }
  }

  /** One block: sanity is kept, and irreversibility does not fall if it was supported. */
  lemma {:induction false} NextKeepsSane(h: Header, p: Producer, k: nat, proposal: seq<Producer>)
    requires Sane(h)
    ensures Sane(Next(h, p, k, proposal))
    ensures Supported(h.implied, h.lib) ==> Next(h, p, k, proposal).lib >= h.lib
  {
    ProposedGrows(h, k);
    LastIrreversibleBounds(h, p);
  }

  /** A block that is irreversible by a header is before it. */
  lemma {:induction false} LibBelowNum(h: Header, p: Producer, k: nat, proposal: seq<Producer>)
    requires Sane(h)
    ensures Next(h, p, k, proposal).lib < Next(h, p, k, proposal).num
  {
    LastIrreversibleBounds(h, p);
  }

  /** Without a change of schedule the support carries over, so it holds along the whole stretch. */
  lemma {:induction false} NextKeepsSupport(h: Header, p: Producer, k: nat, proposal: seq<Producer>)
    requires Sane(h) && !Promotes(h, p)
    ensures var n := Next(h, p, k, proposal); Supported(n.implied, n.lib)
  {
    var lib := LastIrreversible(h.implied, p, h.proposed);
    var m, n := Voted(h.implied, p, h.proposed), h.implied[p := h.proposed];
    LastIrreversibleBounds(h, p);
    LastIrreversibleExact(h.implied, p, h.proposed, lib);
    ImplyingOrBehind(m, lib);
    assert Behind(n, lib) == Behind(m, lib);
    assert m.Keys <= n.Keys && |m.Keys| == |m| && |n.Keys| == |n|;
    SubsetSize(m.Keys, n.Keys);
  }

  /** A stretch of blocks without a change of schedule: block i + 1 is made by producers[i]. */
  ghost predicate Stretch(hs: seq<Header>, producers: seq<Producer>, confirms: seq<nat>,
                          proposals: seq<seq<Producer>>)
  {
    && |hs| == |producers| + 1 && |confirms| == |producers| && |proposals| == |producers|
    && (forall i :: 0 <= i < |producers| ==>
          !Promotes(hs[i], producers[i]) && hs[i+1] == Next(hs[i], producers[i], confirms[i], proposals[i]))
  }

  /** Along a stretch irreversibility never falls, and stays supported. */
  lemma {:induction false} StretchMonotone(hs: seq<Header>, producers: seq<Producer>, confirms: seq<nat>,
                                           proposals: seq<seq<Producer>>, i: nat, j: nat)
    requires Stretch(hs, producers, confirms, proposals) && i <= j < |hs|
    requires Sane(hs[0]) && Supported(hs[0].implied, hs[0].lib)
    ensures Sane(hs[j]) && Supported(hs[j].implied, hs[j].lib) && hs[i].lib <= hs[j].lib
    decreases j
  {
    if j > 0 {
      StretchMonotone(hs, producers, confirms, proposals, if i < j then i else j - 1, j - 1);
      NextKeepsSane(hs[j-1], producers[j-1], confirms[j-1], proposals[j-1]);
      NextKeepsSupport(hs[j-1], producers[j-1], confirms[j-1], proposals[j-1]);
    }
  }

  /** Support means that more than two thirds of the producers imply at least the block. */
  lemma {:induction false} SupportIsTwoThirds(implied: map<Producer, nat>, v: nat)
    requires v > 0
    ensures Supported(implied, v) <==> 3 * |Implying(implied, v)| > 2 * |implied|
  {
    ImplyingOrBehind(implied, v);
  }

  /** The next block keeps irreversibility exactly when less than a third of the producers lag behind, not
      counting its own. */
  lemma {:induction false} LibKeptExactly(h: Header, p: Producer)
    requires Sane(h)
    ensures LastIrreversible(h.implied, p, h.proposed) >= h.lib <==>
            h.lib == 0 || 3 * |Behind(h.implied, h.lib) - {p}| < |h.implied|
  {
    var m := Voted(h.implied, p, h.proposed);
    assert m.Keys == h.implied.Keys && |m| == |m.Keys| && |h.implied| == |h.implied.Keys|;
    assert Behind(m, h.lib) == Behind(h.implied, h.lib) - {p};
    ImplyingOrBehind(m, h.lib);
    LastIrreversibleExact(h.implied, p, h.proposed, h.lib);
  }

  // ---- Whole runs ----

  datatype Block = Block(producer: Producer, confirms: nat, proposal: seq<Producer>)

  /** Every header that blocks by scheduled producers, none refused as confirming twice, lead to. */
  ghost predicate IsRun(hs: seq<Header>, bs: seq<Block>) {
    && |hs| == |bs| + 1
    && (exists e :: hs[0] == Genesis(e))
    && (forall i :: 0 <= i < |bs| ==> StepAt(hs, bs, i))
  }

  ghost predicate StepAt(hs: seq<Header>, bs: seq<Block>, i: nat)
    requires |hs| == |bs| + 1 && i < |bs|
  {
    IsStep(hs[i], bs[i], hs[i+1])
  }

  ghost predicate IsStep(h: Header, b: Block, n: Header) {
    && b.producer in h.schedule && MayConfirm(h, b.producer, b.confirms)
    && n == Next(h, b.producer, b.confirms, b.proposal)
  }

  lemma {:induction false} RunIsSane(hs: seq<Header>, bs: seq<Block>, i: nat)
    requires IsRun(hs, bs) && i < |hs|
    ensures Sane(hs[i]) && hs[i].num == i + 1 && (hs[i].pending != [] ==> hs[i].pendingLib <= hs[i].num)
  {
    if i > 0 {
      RunIsSane(hs, bs, i - 1);
      assert StepAt(hs, bs, i - 1);
      NextKeepsSane(hs[i-1], bs[i-1].producer, bs[i-1].confirms, bs[i-1].proposal);
    }
  }

  /** The producers of the schedule, `p` aside, that imply less than the irreversible block. */
  function Laggards(h: Header, p: Producer): set<Producer> {
    set q | q in h.schedule && q != p && q in h.implied && h.implied[q] < h.lib
  }

  function Scheduled(h: Header): set<Producer> { set q <- h.schedule }

  /** They are at least a third of the schedule. */
  predicate Lag(h: Header, p: Producer) { h.lib > 0 && 3 * |Laggards(h, p)| >= |Scheduled(h)| }

  /** From the first block on exactly the producers of the schedule imply a number. */
  lemma {:induction false} ImpliedBySchedule(hs: seq<Header>, bs: seq<Block>, i: nat)
    requires IsRun(hs, bs) && 0 < i < |hs|
    ensures hs[i].implied.Keys == Scheduled(hs[i]) && Scheduled(hs[i]) <= hs[i].lastProduced.Keys
    ensures hs[i].schedule != []
  {
    assert StepAt(hs, bs, i - 1);
    if i > 1 {
      ImpliedBySchedule(hs, bs, i - 1);
    } else {
      assert hs[0].pending != [] && hs[0].pendingLib == 0;
    }
  }

  /** After a block that leaves the schedule, irreversibility is kept; after a promotion it depends. */
  lemma {:induction false} StepKeepsLib(g: Header, a: Block, h: Header, p: Producer)
    requires Sane(g) && IsStep(g, a, h) && h.implied.Keys == Scheduled(h)
    ensures LastIrreversible(h.implied, p, h.proposed) < h.lib <==>
            Promotes(g, a.producer) && Lag(h, p)
  {
    NextKeepsSane(g, a.producer, a.confirms, a.proposal);
    if Promotes(g, a.producer) {
      LagIsExact(h, p);
    } else {
      NextKeepsSupport(g, a.producer, a.confirms, a.proposal);
      LastIrreversibleBounds(h, p);
    }
  }

  lemma {:induction false} LagIsExact(h: Header, p: Producer)
    requires Sane(h) && h.implied.Keys == Scheduled(h)
    ensures LastIrreversible(h.implied, p, h.proposed) < h.lib <==> Lag(h, p)
  {
    LibKeptExactly(h, p);
    assert Laggards(h, p) == Behind(h.implied, h.lib) - {p} && |h.implied| == |h.implied.Keys|;
  }

  lemma {:induction false} RunLib(hs: seq<Header>, bs: seq<Block>, i: nat)
    requires IsRun(hs, bs) && i < |bs|
    ensures hs[i+1].lib == LastIrreversible(hs[i].implied, bs[i].producer, hs[i].proposed)
  {
    assert StepAt(hs, bs, i);
  }

  lemma {:induction false} RunKeepsLib(hs: seq<Header>, bs: seq<Block>, i: nat)
    requires IsRun(hs, bs) && 0 < i < |bs|
    ensures LastIrreversible(hs[i].implied, bs[i].producer, hs[i].proposed) < hs[i].lib <==>
            Promotes(hs[i-1], bs[i-1].producer) && Lag(hs[i], bs[i].producer)
  {
    RunIsSane(hs, bs, i - 1);
    ImpliedBySchedule(hs, bs, i);
    assert StepAt(hs, bs, i - 1);
    StepKeepsLib(hs[i-1], bs[i-1], hs[i], bs[i].producer);
  }

  /** In any run irreversibility falls exactly right after a change of schedule, when the new producers that lag
      behind, the next one aside, are at least a third. */
  lemma {:induction false} LibFallsExactly(hs: seq<Header>, bs: seq<Block>, i: nat)
    requires IsRun(hs, bs) && i < |bs|
    ensures hs[i+1].lib < hs[i].lib <==> i > 0 && Promotes(hs[i-1], bs[i-1].producer) && Lag(hs[i], bs[i].producer)
  {
    RunLib(hs, bs, i);
    if i > 0 { RunKeepsLib(hs, bs, i); }
  }
}
