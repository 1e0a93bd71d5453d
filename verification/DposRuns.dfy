/** Two runs from a genesis header that show what Dpos and DposQuorum do not promise: a change of schedule
    that lowers irreversibility, and a range check that wraps. */
module DposRuns {
  import opened Dpos
  import opened DposQuorum

  const SCHEDULE: seq<Producer> := [1, 2, 3, 4]

  // ---- Headers under the schedule of producers 1 to 4, by their numbers ----

  datatype Four = Four(a: nat, b: nat, c: nat, d: nat) {
    function Of(p: Producer): nat { if p == 1 then a else if p == 2 then b else if p == 3 then c else d }
    function With(p: Producer, x: nat): Four {
      if p == 1 then this.(a := x) else if p == 2 then this.(b := x)
      else if p == 3 then this.(c := x) else this.(d := x)
    }
    function AsMap(): map<Producer, nat> { map[1 := a, 2 := b, 3 := c, 4 := d] }
  }

  datatype Shape = Shape(
    num: nat,
    proposed: nat,
    last: Four,
    implied: Four,
    confirm: seq<nat>,
    pending: seq<Producer>,
    pendingLib: nat)

  ghost predicate Looks(h: Header, s: Shape) {
    && h.num == s.num && h.proposed == s.proposed && h.schedule == SCHEDULE
    && 5 !in h.lastProduced && (forall p :: 1 <= p <= 4 ==> p in h.lastProduced && h.lastProduced[p] == s.last.Of(p))
    && h.implied == s.implied.AsMap() && h.confirm == s.confirm
    && h.pending == s.pending && h.pendingLib == s.pendingLib
  }

  lemma {:induction false} FourKeys(f: Four)
    ensures |f.AsMap()| == 4 && f.AsMap() != map[] && Dpos.Third(f.AsMap()) == 1
  {
    assert f.AsMap().Keys == {1, 2, 3, 4} && |f.AsMap()| == |f.AsMap().Keys|;
  }

  lemma {:induction false} OneBehind(f: Four, v: nat, lo: Producer)
    requires forall p :: 1 <= p <= 4 && p != lo ==> f.Of(p) >= v
    ensures |Behind(f.AsMap(), v)| <= 1
  {
    var m := f.AsMap();
    forall x | x in Behind(m, v) ensures x == lo { assert 1 <= x <= 4 && m[x] == f.Of(x); }
    SubsetSize(Behind(m, v), {lo});
  }

  lemma {:induction false} TwoBehind(f: Four, v: nat, q: Producer, r: Producer)
    requires 1 <= q < r <= 4 && f.Of(q) < v && f.Of(r) < v
    ensures |Behind(f.AsMap(), v)| >= 2
  {
    var m := f.AsMap();
    assert q in m && m[q] == f.Of(q) && r in m && m[r] == f.Of(r);
    SubsetSize({q, r}, Behind(m, v));
  }

  /** The value that only `lo` may be below and that two others do not pass. */
  lemma {:induction false} FourNth(f: Four, v: nat, lo: Producer, q: Producer, r: Producer)
    requires 1 <= q < r <= 4 && f.Of(q) <= v && f.Of(r) <= v
    requires forall p :: 1 <= p <= 4 && p != lo ==> f.Of(p) >= v
    ensures f.AsMap() != map[] && Dpos.Third(f.AsMap()) == 1 && Nth(f.AsMap(), 1) == v
  {
    FourKeys(f);
    OneBehind(f, v, lo);
    NthAtLeast(f.AsMap(), 1, v);
    TwoBehind(f, v + 1, q, r);
    NthAtLeast(f.AsMap(), 1, v + 1);
  }

  lemma {:induction false} FourVoted(f: Four, p: Producer, x: nat)
    requires 1 <= p <= 4
    ensures Voted(f.AsMap(), p, x) == f.With(p, x).AsMap() && f.AsMap()[p := x] == f.With(p, x).AsMap()
  {
  }

  /** What a block by one of the four leads to while the schedule stays. */
  function After(s: Shape, b: Block, counts: seq<nat>, hit: int): Shape
    requires hit <= |s.confirm| <= s.num
  {
    Shape(s.num + 1, if hit < 0 then s.proposed else s.num + 1 - (|s.confirm| - hit),
          s.last.With(b.producer, s.num + 1), s.implied.With(b.producer, s.proposed), counts,
          if s.pending == [] then b.proposal else s.pending,
          if s.pending == [] && b.proposal != [] then s.num + 1 else s.pendingLib)
  }

  /** One block by one of the four: `lib` is the new irreversible number. */
  lemma {:induction false} FourStep(h: Header, s: Shape, b: Block, counts: seq<nat>, hit: int, lib: nat)
      returns (n: Header)
    requires Looks(h, s) && 1 <= b.producer <= 4 && s.last.Of(b.producer) < Sub32(s.num + 1, b.confirms)
    requires Confirmed(s.confirm + [3], b.confirms + 1) == (counts, hit)
    requires hit <= |s.confirm| <= s.num && |s.confirm| < 9
    requires LastIrreversible(h.implied, b.producer, h.proposed) == lib && (s.pending == [] || lib < s.pendingLib)
    ensures IsStep(h, b, n) && Looks(n, After(s, b, counts, hit)) && n.lib == lib
  {
    n := Next(h, b.producer, b.confirms, b.proposal);
    assert Extended(h) == s.confirm + [3];
    InSchedule();
    PlainNext(h, b, counts, hit, lib);
    LooksAfter(h, s, b, counts, hit, n);
  }

  lemma {:induction false} PlainNext(h: Header, b: Block, counts: seq<nat>, hit: int, lib: nat)
    requires Confirmed(Extended(h), b.confirms + 1) == (counts, hit) && hit < |Extended(h)| <= h.num + 1
    requires LastIrreversible(h.implied, b.producer, h.proposed) == lib && (h.pending == [] || lib < h.pendingLib)
    ensures Next(h, b.producer, b.confirms, b.proposal) == Header(
              h.num + 1, if hit < 0 then h.proposed else h.num + 1 - (|Extended(h)| - 1 - hit), lib, h.schedule,
              h.lastProduced[b.producer := h.num + 1], h.implied[b.producer := h.proposed], counts,
              if h.pending == [] then b.proposal else h.pending,
              if h.pending == [] && b.proposal != [] then h.num + 1 else h.pendingLib)
  {
  }

  lemma {:induction false} LooksAfter(h: Header, s: Shape, b: Block, counts: seq<nat>, hit: int, n: Header)
    requires Looks(h, s) && 1 <= b.producer <= 4 && hit <= |s.confirm| <= s.num
    requires n.num == h.num + 1 && n.schedule == h.schedule && n.confirm == counts
    requires n.proposed == if hit < 0 then h.proposed else h.num + 1 - (|s.confirm| - hit)
    requires n.lastProduced == h.lastProduced[b.producer := h.num + 1]
    requires n.implied == h.implied[b.producer := h.proposed]
    requires n.pending == if h.pending == [] then b.proposal else h.pending
    requires n.pendingLib == if h.pending == [] && b.proposal != [] then h.num + 1 else h.pendingLib
    ensures Looks(n, After(s, b, counts, hit))
  {
    FourVoted(s.implied, b.producer, s.proposed);
  }

  /** `v` is the new irreversible number: only `lo` implies less, and `q` and `r` imply no more. */
  ghost predicate IsLib(s: Shape, p: Producer, v: nat, lo: Producer, q: Producer, r: Producer) {
    var f := s.implied.With(p, s.proposed);
    f.Of(q) <= v && f.Of(r) <= v && (forall x :: 1 <= x <= 4 && x != lo ==> f.Of(x) >= v)
  }

  lemma {:induction false} FourLib(h: Header, s: Shape, p: Producer, v: nat, lo: Producer, q: Producer, r: Producer)
    requires Looks(h, s) && 1 <= p <= 4 && 1 <= q < r <= 4 && IsLib(s, p, v, lo, q, r)
    ensures LastIrreversible(h.implied, p, h.proposed) == v
  {
    FourVoted(s.implied, p, s.proposed);
    FourNth(s.implied.With(p, s.proposed), v, lo, q, r);
  }

  lemma {:induction false} OneNth(m: map<Producer, nat>, q: Producer, v: nat)
    requires m == map[q := v]
    ensures m != map[] && Dpos.Third(m) == 0 && Nth(m, 0) == v
  {
    assert m.Keys == {q} && |m| == |m.Keys|;
    assert Behind(m, v) == {} && Behind(m, v + 1) == {q};
    NthAtLeast(m, 0, v);
    NthAtLeast(m, 0, v + 1);
  }

  // ---- Rounds of confirmations ----

  lemma {:induction false} RoundOfOne(c: nat, n: nat)
    requires n > 0
    ensures Confirmed([c], n) == if c <= 1 then ([], 0) else ([c - 1], -1)
  {
    ConfirmedLast([], c, n);
    assert [] + [c] == [c] && [] + [c - 1] == [c - 1];
  }

  lemma {:induction false} RoundOfTwo(c: nat, d: nat, n: nat)
    requires n > 1 && d > 1
    ensures Confirmed([c, d], n) == if c <= 1 then ([d - 1], 0) else ([c - 1, d - 1], -1)
  {
    RoundOfOne(c, n - 1);
    ConfirmedLast([c], d, n);
    assert [c] + [d] == [c, d] && [c - 1] + [d - 1] == [c - 1, d - 1] && [] + [d - 1] == [d - 1];
  }

  lemma {:induction false} RoundOfThree(n: nat)
    requires n > 2
    ensures Confirmed([1, 2, 3], n) == ([1, 2], 0)
  {
    RoundOfTwo(1, 2, n - 1);
    ConfirmedLast([1, 2], 3, n);
    assert [1, 2] + [3] == [1, 2, 3] && [1] + [2] == [1, 2];
  }

  // ---- The genesis producer hands over to the four ----

  const G2: Header := Header(2, 2, 0, [0], map[0 := 2], map[0 := 0], [], [], 0)
  const G3: Header := Header(3, 3, 2, [0], map[0 := 3], map[0 := 2], [], SCHEDULE, 3)

  const START: Shape := Shape(4, 4, Four(3, 3, 3, 3), Four(3, 3, 3, 3), [], [], 3)

  lemma {:induction false} StepTwo()
    ensures IsStep(Genesis(0), Block(0, 0, []), G2)
  {
    RoundOfOne(1, 1);
    assert Extended(Genesis(0)) == [1];
    assert NewImplied(Genesis(0), 0, 0) == map[0 := 0];
    assert NewLast(Genesis(0), 0)[0 := 2] == map[0 := 2];
  }

  lemma {:induction false} StepThree()
    ensures IsStep(G2, Block(0, 0, SCHEDULE), G3)
  {
    RoundOfOne(1, 1);
    assert Extended(G2) == [1];
    OneNth(Voted(G2.implied, 0, 2), 0, 2);
  }

  lemma {:induction false} StepFour() returns (n: Header)
    ensures IsStep(G3, Block(0, 0, []), n) && Looks(n, START) && n.lib == 3
  {
    n := Next(G3, 0, 0, []);
    StepFourIs();
    NewcomersImply(G3);
    NewcomersLast(G3);
  }

  lemma {:induction false} StepFourIs()
    ensures MayConfirm(G3, 0, 0) && Next(G3, 0, 0, []) ==
            Header(4, 4, 3, SCHEDULE, NewLast(G3, 3)[0 := 4], NewImplied(G3, 0, 3), [], [], 3)
  {
    RoundOfOne(1, 1);
    assert Extended(G3) == [1];
    OneNth(Voted(G3.implied, 0, 3), 0, 3);
  }

  /** Producers new to the schedule start at the irreversible block. */
  lemma {:induction false} NewcomersImply(h: Header)
    requires h.pending == SCHEDULE && h.implied.Keys == {0}
    ensures NewImplied(h, 0, 3) == START.implied.AsMap()
  {
    var m := NewImplied(h, 0, 3);
    InSchedule();
    assert forall q :: q in m <==> 1 <= q <= 4;
    assert forall q :: 1 <= q <= 4 ==> m[q] == 3;
  }

  lemma {:induction false} NewcomersLast(h: Header)
    requires h.pending == SCHEDULE && h.lastProduced.Keys == {0}
    ensures 5 !in NewLast(h, 3) && forall p :: 1 <= p <= 4 ==> p in NewLast(h, 3) && NewLast(h, 3)[p] == 3
  {
    InSchedule();
  }

  lemma {:induction false} InSchedule()
    ensures forall p :: p in SCHEDULE <==> 1 <= p <= 4
  {
    forall p | 1 <= p <= 4 ensures p in SCHEDULE { assert SCHEDULE[p - 1] == p; }
  }

  ghost predicate Reaches(bs: seq<Block>, h: Header) {
    exists hs :: IsRun(hs, bs) && hs[|bs|] == h
  }

  lemma {:induction false} RunGrows(hs: seq<Header>, bs: seq<Block>, b: Block, n: Header)
    requires IsRun(hs, bs) && IsStep(hs[|bs|], b, n)
    ensures IsRun(hs + [n], bs + [b])
  {
    var gs, cs := hs + [n], bs + [b];
    forall i | 0 <= i < |cs| ensures StepAt(gs, cs, i) {
      if i < |bs| { assert StepAt(hs, bs, i); }
    }
  }

  lemma {:induction false} ReachesNext(bs: seq<Block>, h: Header, b: Block, n: Header)
    requires Reaches(bs, h) && IsStep(h, b, n)
    ensures Reaches(bs + [b], n)
  {
    var hs :| IsRun(hs, bs) && hs[|bs|] == h;
    RunGrows(hs, bs, b, n);
    assert (hs + [n])[|bs + [b]|] == n;
  }

  /** The blocks lead to a header of that shape. */
  ghost predicate Arrives(bs: seq<Block>, s: Shape) {
    exists h :: Reaches(bs, h) && Looks(h, s)
  }

  lemma {:induction false} GenesisReached()
    ensures Reaches([], Genesis(0))
  {
    var none: seq<Block> := [];
    assert IsRun([Genesis(0)], none) && [Genesis(0)][|none|] == Genesis(0);
  }

  lemma {:induction false} Opening()
    ensures Arrives([] + [Block(0, 0, [])] + [Block(0, 0, SCHEDULE)] + [Block(0, 0, [])], START)
  {
    GenesisReached();
    StepTwo();
    ReachesNext([], Genesis(0), Block(0, 0, []), G2);
    OpeningEnds([] + [Block(0, 0, [])]);
  }

  lemma {:induction false} OpeningEnds(bs: seq<Block>)
    requires Reaches(bs, G2)
    ensures Arrives(bs + [Block(0, 0, SCHEDULE)] + [Block(0, 0, [])], START)
  {
    StepThree();
    ReachesNext(bs, G2, Block(0, 0, SCHEDULE), G3);
    var h := StepFour();
    ReachesNext(bs + [Block(0, 0, SCHEDULE)], G3, Block(0, 0, []), h);
  }

  /** A block by one of the four takes blocks that lead to `s` to those that lead to the next shape. */
  lemma {:induction false} ArrivesNext(bs: seq<Block>, s: Shape, b: Block, counts: seq<nat>, hit: int,
                                       lib: nat, lo: Producer, q: Producer, r: Producer)
    requires Arrives(bs, s) && 1 <= b.producer <= 4 && s.last.Of(b.producer) < Sub32(s.num + 1, b.confirms)
    requires Confirmed(s.confirm + [3], b.confirms + 1) == (counts, hit)
    requires hit <= |s.confirm| <= s.num && |s.confirm| < 9
    requires 1 <= q < r <= 4 && (s.pending == [] || lib < s.pendingLib) && IsLib(s, b.producer, lib, lo, q, r)
    ensures Arrives(bs + [b], After(s, b, counts, hit))
  {
    var h :| Reaches(bs, h) && Looks(h, s);
    FourLib(h, s, b.producer, lib, lo, q, r);
    var n := FourStep(h, s, b, counts, hit, lib);
    ReachesNext(bs, h, b, n);
  }

  // ---- Irreversibility falls: producer 1 misses its turns and is alone kept for the next schedule ----

  const S5: Shape := Shape(5, 4, Four(3, 5, 3, 3), Four(3, 4, 3, 3), [2], [1, 5], 5)
  const S6: Shape := Shape(6, 4, Four(3, 5, 6, 3), Four(3, 4, 4, 3), [1, 2], [1, 5], 5)
  const S7: Shape := Shape(7, 5, Four(3, 5, 6, 7), Four(3, 4, 4, 4), [1, 2], [1, 5], 5)
  const S8: Shape := Shape(8, 6, Four(3, 8, 6, 7), Four(3, 5, 4, 4), [1, 2], [1, 5], 5)
  const S9: Shape := Shape(9, 7, Four(3, 8, 9, 7), Four(3, 5, 6, 4), [1, 2], [1, 5], 5)

  lemma {:induction false} StepFive(bs: seq<Block>)
    requires Arrives(bs, START)
    ensures Arrives(bs + [Block(2, 0, [1, 5])], S5)
  {
    RoundOfOne(3, 1);
    assert START.confirm + [3] == [3];
    ArrivesNext(bs, START, Block(2, 0, [1, 5]), [2], -1, 3, 1, 3, 4);
  }

  lemma {:induction false} StepSix(bs: seq<Block>)
    requires Arrives(bs, S5)
    ensures Arrives(bs + [Block(3, 1, [])], S6)
  {
    RoundOfTwo(2, 3, 2);
    assert S5.confirm + [3] == [2, 3];
    ArrivesNext(bs, S5, Block(3, 1, []), [1, 2], -1, 3, 1, 1, 4);
  }

  /** From here on every block completes the confirmations of the one two before it. */
  lemma {:induction false} StepSeven(bs: seq<Block>)
    requires Arrives(bs, S6)
    ensures Arrives(bs + [Block(4, 2, [])], S7)
  {
    RoundOfThree(3);
    assert S6.confirm + [3] == [1, 2, 3];
    ArrivesNext(bs, S6, Block(4, 2, []), [1, 2], 0, 4, 1, 2, 3);
  }

  lemma {:induction false} StepEight(bs: seq<Block>)
    requires Arrives(bs, S7)
    ensures Arrives(bs + [Block(2, 2, [])], S8)
  {
    RoundOfThree(3);
    assert S7.confirm + [3] == [1, 2, 3];
    ArrivesNext(bs, S7, Block(2, 2, []), [1, 2], 0, 4, 1, 3, 4);
  }

  lemma {:induction false} StepNine(bs: seq<Block>)
    requires Arrives(bs, S8)
    ensures Arrives(bs + [Block(3, 2, [])], S9)
  {
    RoundOfThree(3);
    assert S8.confirm + [3] == [1, 2, 3];
    ArrivesNext(bs, S8, Block(3, 2, []), [1, 2], 0, 4, 1, 1, 4);
  }

  /** The new schedule takes over at block 10. */
  ghost predicate Changed(f: Header) {
    && f.num == 10 && f.proposed == 8 && f.lib == 5 && f.schedule == [1, 5]
    && f.implied == map[1 := 3, 5 := 5] && 5 in f.lastProduced && f.lastProduced[5] == 5
  }

  lemma {:induction false} TakesOver(e: Header) returns (f: Header)
    requires Looks(e, S9)
    ensures IsStep(e, Block(4, 2, []), f) && Promotes(e, 4) && Changed(f)
  {
    RoundOfThree(3);
    assert Extended(e) == [1, 2, 3];
    FourLib(e, S9, 4, 5, 1, 1, 2);
    f := Next(e, 4, 2, []);
    TakesOverMaps(e);
  }

  lemma {:induction false} TakesOverMaps(e: Header)
    requires Looks(e, S9)
    ensures NewImplied(e, 4, 5) == map[1 := 3, 5 := 5] && 5 in NewLast(e, 5) && NewLast(e, 5)[5] == 5
  {
    var m := NewImplied(e, 4, 5);
    assert e.pending[0] == 1 && e.pending[1] == 5 && forall q <- e.pending :: q == 1 || q == 5;
    assert forall q :: q in m <==> q == 1 || q == 5;
    assert m[1] == 3 && m[5] == 5;
  }

  /** The newcomer's first block has the missing producer outweigh it. */
  lemma {:induction false} Falls(f: Header) returns (g: Header)
    requires Changed(f)
    ensures IsStep(f, Block(5, 0, []), g) && g.lib < f.lib
  {
    g := Next(f, 5, 0, []);
    var m := Voted(f.implied, 5, 8);
    assert m.Keys == {1, 5} && |m| == |m.Keys|;
    assert 1 in Behind(m, 5);
    SubsetSize({1}, Behind(m, 5));
    NthAtLeast(m, Dpos.Third(m), 5);
  }

  /** Producers 2, 3 and 4 in turn, each confirming what it can; the first announces the new schedule. */
  lemma {:induction false} TakeTurns() returns (bs: seq<Block>)
    ensures Arrives(bs, S9) && |bs| == 8 && AllFew(bs)
  {
    Opening();
    bs := [] + [Block(0, 0, [])] + [Block(0, 0, SCHEDULE)] + [Block(0, 0, [])];
    StepFive(bs);
    FewGrows(bs, Block(2, 0, [1, 5]));
    bs := bs + [Block(2, 0, [1, 5])];
    StepSix(bs);
    FewGrows(bs, Block(3, 1, []));
    bs := bs + [Block(3, 1, [])];
    bs := TakeMoreTurns(bs);
  }

  lemma {:induction false} TakeMoreTurns(cs: seq<Block>) returns (bs: seq<Block>)
    requires Arrives(cs, S6) && AllFew(cs)
    ensures Arrives(bs, S9) && |bs| == |cs| + 3 && AllFew(bs)
  {
    bs := cs;
    StepSeven(bs);
    FewGrows(bs, Block(4, 2, []));
    bs := bs + [Block(4, 2, [])];
    StepEight(bs);
    FewGrows(bs, Block(2, 2, []));
    bs := bs + [Block(2, 2, [])];
    StepNine(bs);
    FewGrows(bs, Block(3, 2, []));
    bs := bs + [Block(3, 2, [])];
  }

  ghost predicate AllFew(bs: seq<Block>) { forall i :: 0 <= i < |bs| ==> bs[i].confirms <= 2 }

  lemma {:induction false} FewGrows(bs: seq<Block>, b: Block)
    requires AllFew(bs) && b.confirms <= 2
    ensures AllFew(bs + [b])
  {
  }

  lemma {:induction false} ChangeReached(bs: seq<Block>) returns (f: Header)
    requires Arrives(bs, S9)
    ensures Reaches(bs + [Block(4, 2, [])], f) && Changed(f)
  {
    var e :| Reaches(bs, e) && Looks(e, S9);
    f := TakesOver(e);
    ReachesNext(bs, e, Block(4, 2, []), f);
  }

  lemma {:induction false} FallsNext(bs: seq<Block>, f: Header) returns (hs: seq<Header>)
    requires Reaches(bs, f) && Changed(f) && |bs| == 9
    ensures IsRun(hs, bs + [Block(5, 0, [])]) && hs[10].lib < hs[9].lib
  {
    var g := Falls(f);
    hs :| IsRun(hs, bs) && hs[|bs|] == f;
    RunGrows(hs, bs, Block(5, 0, []), g);
    hs := hs + [g];
  }

  /** A run from genesis in which the last irreversible block number falls. */
  lemma {:induction false} PromotionLowersLib() returns (hs: seq<Header>, bs: seq<Block>)
    ensures IsRun(hs, bs) && AllFew(bs) && |bs| == 10 && hs[10].lib < hs[9].lib
  {
    bs := TakeTurns();
    var f := ChangeReached(bs);
    bs := bs + [Block(4, 2, [])];
    hs := FallsNext(bs, f);
    bs := bs + [Block(5, 0, [])];
  }

  // ---- The range check wraps ----

  const W5: Shape := Shape(5, 4, Four(5, 3, 3, 3), Four(4, 3, 3, 3), [2], [], 3)
  const W6: Shape := Shape(6, 4, Four(6, 3, 3, 3), Four(4, 3, 3, 3), [1, 2], [], 3)
  const W7: Shape := Shape(7, 5, Four(7, 3, 3, 3), Four(4, 3, 3, 3), [1, 2], [], 3)

  lemma {:induction false} AloneFive(bs: seq<Block>)
    requires Arrives(bs, START)
    ensures Arrives(bs + [Block(1, 0, [])], W5)
  {
    RoundOfOne(3, 1);
    assert START.confirm + [3] == [3];
    ArrivesNext(bs, START, Block(1, 0, []), [2], -1, 3, 2, 2, 3);
  }

  lemma {:induction false} AloneSix(bs: seq<Block>)
    requires Arrives(bs, W5)
    ensures Arrives(bs + [Block(1, 8, [])], W6)
  {
    RoundOfTwo(2, 3, 9);
    assert W5.confirm + [3] == [2, 3];
    ArrivesNext(bs, W5, Block(1, 8, []), [1, 2], -1, 3, 2, 2, 3);
  }

  lemma {:induction false} AloneSeven(bs: seq<Block>)
    requires Arrives(bs, W6)
    ensures Arrives(bs + [Block(1, 8, [])], W7)
  {
    RoundOfThree(9);
    assert W6.confirm + [3] == [1, 2, 3];
    ArrivesNext(bs, W6, Block(1, 8, []), [1, 2], 0, 3, 2, 2, 3);
  }

  /** The blocks of producer 1 alone; its last two headers confirm more blocks than there are. */
  function Handover(): seq<Block> { [] + [Block(0, 0, [])] + [Block(0, 0, SCHEDULE)] + [Block(0, 0, [])] }
  function AlmostAlone(): seq<Block> { Handover() + [Block(1, 0, [])] + [Block(1, 8, [])] }
  function Alone(): seq<Block> { AlmostAlone() + [Block(1, 8, [])] }

  lemma {:induction false} AloneArrives()
    ensures Arrives(Handover(), START) && Arrives(AlmostAlone(), W6) && Arrives(Alone(), W7)
  {
    Opening();
    AloneFive(Handover());
    AloneSix(Handover() + [Block(1, 0, [])]);
    AloneSeven(AlmostAlone());
  }

  lemma {:induction false} AloneConfirms()
    ensures Confirmers(Alone(), 6, 5) == {1}
  {
    var bs := Alone();
    assert bs[3] == Block(1, 0, []) && bs[4] == Block(1, 8, []) && bs[5] == Block(1, 8, []);
    assert bs[0].confirms == bs[1].confirms == bs[2].confirms == 0;
    assert Confirms(bs[3], 3, 5);
  }

  /** The blocks determine the headers. */
  lemma {:induction false} SameHeaders(hs: seq<Header>, bs: seq<Block>, gs: seq<Header>, cs: seq<Block>, i: nat)
    requires IsRun(hs, bs) && IsRun(gs, cs) && cs != [] && cs <= bs && i <= |cs|
    ensures hs[i] == gs[i]
  {
    if i == 0 {
      assert StepAt(hs, bs, 0) && StepAt(gs, cs, 0);
    } else {
      SameHeaders(hs, bs, gs, cs, i - 1);
      assert StepAt(hs, bs, i - 1) && StepAt(gs, cs, i - 1);
    }
  }

  lemma {:induction false} ShapeThen(hs: seq<Header>, bs: seq<Block>, cs: seq<Block>, s: Shape)
    requires IsRun(hs, bs) && cs != [] && cs <= bs && Arrives(cs, s)
    ensures hs[|cs|].schedule == SCHEDULE && hs[|cs|].proposed == s.proposed
  {
    var h :| Reaches(cs, h) && Looks(h, s);
    var gs :| IsRun(gs, cs) && gs[|cs|] == h;
    SameHeaders(hs, bs, gs, cs, |cs|);
  }

  /** Without the bound on what headers confirm the quorum is lost: a run from genesis, every header of
      which passes the range check, in which one producer makes a block proposed that needs three. */
  lemma {:induction false} WrappedRangeLosesQuorum() returns (hs: seq<Header>, bs: seq<Block>)
    ensures IsRun(hs, bs) && |bs| == 6 && hs[6].proposed == 5 && hs[5].proposed != 5
    ensures |Confirmers(bs, 6, 5)| == 1 && |hs[3].schedule| == 4 && !Quorum(hs, bs, 6, 5)
  {
    AloneArrives();
    bs := Alone();
    hs := RunOf(bs, W7);
    assert Handover() <= bs && AlmostAlone() <= bs && |Handover()| == 3 && |AlmostAlone()| == 5;
    ShapeThen(hs, bs, Handover(), START);
    ShapeThen(hs, bs, AlmostAlone(), W6);
    ShapeThen(hs, bs, bs, W7);
    AloneConfirms();
  }

  lemma {:induction false} RunOf(bs: seq<Block>, s: Shape) returns (hs: seq<Header>)
    requires Arrives(bs, s)
    ensures IsRun(hs, bs)
  {
    var h :| Reaches(bs, h) && Looks(h, s);
    hs :| IsRun(hs, bs) && hs[|bs|] == h;
  }
}
