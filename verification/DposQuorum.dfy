/** Who stands behind a proposed and behind an irreversible block, over whole runs of block headers. */
module DposQuorum {
  import opened Dpos
  import opened DposVotes

  // ---- Who confirmed a block, by the blocks alone ----

  /** The block after `i` others, number i + 2, confirms block `n`. */
  predicate Confirms(b: Block, i: nat, n: nat) { i + 2 - b.confirms <= n <= i + 2 }

  /** Everyone who confirmed block `n` with one of the first `j` blocks. */
  function Confirmers(bs: seq<Block>, j: nat, n: nat): set<Producer>
    requires j <= |bs|
  {
    set i | 0 <= i < j && Confirms(bs[i], i, n) :: bs[i].producer
  }

  /** The blocks they did it with. */
  function Supporters(bs: seq<Block>, j: nat, n: nat): set<int>
    requires j <= |bs|
  {
    set i | 0 <= i < j && Confirms(bs[i], i, n)
  }

  lemma {:induction false} OneMore(bs: seq<Block>, j: nat, n: nat)
    requires j < |bs|
    ensures var more := Confirms(bs[j], j, n);
            && Confirmers(bs, j + 1, n) == Confirmers(bs, j, n) + (if more then {bs[j].producer} else {})
            && Supporters(bs, j + 1, n) == Supporters(bs, j, n) + (if more then {j} else {})
            && |Supporters(bs, j + 1, n)| == |Supporters(bs, j, n)| + (if more then 1 else 0)
  {
    assert Supporters(bs, j + 1, n) == Supporters(bs, j, n) + (if Confirms(bs[j], j, n) then {j} else {});
    assert j !in Supporters(bs, j, n);
  }

  /** Nobody confirmed block `n` again. */
  ghost predicate EachOnce(bs: seq<Block>, j: nat, n: nat)
    requires j <= |bs|
  {
    forall i :: 0 <= i < j && Confirms(bs[i], i, n) ==> bs[i].producer !in Confirmers(bs, i, n)
  }

  /** There are as many confirmers as confirmations exactly when nobody confirmed again. */
  lemma {:induction false} ConfirmersCount(bs: seq<Block>, j: nat, n: nat)
    requires j <= |bs|
    ensures |Confirmers(bs, j, n)| <= |Supporters(bs, j, n)|
    ensures |Confirmers(bs, j, n)| == |Supporters(bs, j, n)| <==> EachOnce(bs, j, n)
  {
    if j > 0 {
      OneMore(bs, j - 1, n);
      OnceMore(bs, j - 1, n);
      ConfirmersCount(bs, j - 1, n);
    }
  }

  lemma {:induction false} OnceMore(bs: seq<Block>, j: nat, n: nat)
    requires j < |bs|
    ensures EachOnce(bs, j + 1, n) <==>
            EachOnce(bs, j, n) && (Confirms(bs[j], j, n) ==> bs[j].producer !in Confirmers(bs, j, n))
  {
  }

  /** Block i + 2 confirms more blocks than there are. */
  predicate Overreaches(b: Block, i: nat) { b.confirms > i + 2 }

  /** No such header is by a producer that had confirmed block `n` before. */
  ghost predicate NoRepeat(bs: seq<Block>, j: nat, n: nat)
    requires j <= |bs|
  {
    forall i :: 0 <= i < j && Overreaches(bs[i], i) ==> bs[i].producer !in Confirmers(bs, i, n)
  }

  /** The other headers do not confirm block `n` again. */
  ghost predicate OthersOnce(bs: seq<Block>, j: nat, n: nat)
    requires j <= |bs|
  {
    forall i :: 0 <= i < j && !Overreaches(bs[i], i) && Confirms(bs[i], i, n) ==>
      bs[i].producer !in Confirmers(bs, i, n)
  }

  lemma {:induction false} OnceExactly(bs: seq<Block>, j: nat, n: nat)
    requires j <= |bs| && OthersOnce(bs, j, n)
    ensures EachOnce(bs, j, n) <==> NoRepeat(bs, j, n)
  {
    if EachOnce(bs, j, n) {
      forall i | 0 <= i < j && Overreaches(bs[i], i) ensures bs[i].producer !in Confirmers(bs, i, n) {
        OverreachConfirms(bs, i, n);
      }
    }
  }

  lemma {:induction false} OverreachConfirms(bs: seq<Block>, i: nat, n: nat)
    requires i < |bs| && Overreaches(bs[i], i)
    ensures Confirmers(bs, i, n) == {} || Confirms(bs[i], i, n)
  {
  }

  // ---- The record of a run ----

  /** A track tells what its block needs, ... */
  ghost predicate Placed(hs: seq<Header>, j: nat, t: Track)
    requires j <= |hs|
  {
    2 <= t.num <= j + 1 && t.need == Required(hs[t.num - 2].schedule)
  }

  /** ... who confirmed it, and how many confirmations are missing. */
  ghost predicate Tallied(bs: seq<Block>, j: nat, t: Track)
    requires j <= |bs|
  {
    && t.voters == Confirmers(bs, j, t.num) && t.count + |Supporters(bs, j, t.num)| == t.need
    && OthersOnce(bs, j, t.num)
  }

  ghost predicate True(hs: seq<Header>, bs: seq<Block>, j: nat, t: Track)
    requires |hs| == |bs| + 1 && j <= |bs|
  {
    Placed(hs, j, t) && Tallied(bs, j, t)
  }

  ghost predicate AllTrue(hs: seq<Header>, bs: seq<Block>, j: nat, ts: seq<Track>)
    requires |hs| == |bs| + 1 && j <= |bs|
  {
    forall i :: 0 <= i < |ts| ==> True(hs, bs, j, ts[i])
  }

  lemma {:induction false} OthersOneMore(bs: seq<Block>, j: nat, n: nat)
    requires j < |bs| && OthersOnce(bs, j, n)
    requires Overreaches(bs[j], j) || !Confirms(bs[j], j, n) || bs[j].producer !in Confirmers(bs, j, n)
    ensures OthersOnce(bs, j + 1, n)
  {
  }

  /** One more block, whose producer does not confirm again unless it overreaches. */
  lemma {:induction false} StaysTallied(bs: seq<Block>, j: nat, t: Track)
    requires j < |bs| && t.count > 0 && Tallied(bs, j, t)
    requires Overreaches(bs[j], j) || !Confirms(bs[j], j, t.num) || bs[j].producer !in t.voters
    ensures Tallied(bs, j + 1, Touched(t, Confirms(bs[j], j, t.num), bs[j].producer))
  {
    OneMore(bs, j, t.num);
    OthersOneMore(bs, j, t.num);
  }

  /** Nobody has confirmed a block that is not there yet. */
  lemma {:induction false} NewestTallied(bs: seq<Block>, j: nat, t: Track)
    requires j <= |bs| && t.num == j + 2 && t.count == t.need && t.voters == {}
    ensures Tallied(bs, j, t)
  {
    assert Supporters(bs, j, t.num) == {};
  }

  /** What holds when block `j` is about to be recorded. */
  ghost predicate Extends(hs: seq<Header>, bs: seq<Block>, j: nat, ts: seq<Track>)
    requires |hs| == |bs| + 1 && j < |bs|
  {
    && Numbered(ts, j + 2)
    && (forall i :: 0 <= i < |ts| ==> ts[i].count > 0 && Placed(hs, j + 1, ts[i]) && Tallied(bs, j, ts[i]))
    && (forall i :: 0 <= i < |ts| && Confirms(bs[j], j, ts[i].num) && !Overreaches(bs[j], j) ==>
          bs[j].producer !in ts[i].voters)
  }

  lemma {:induction false} TouchedTrue(hs: seq<Header>, bs: seq<Block>, j: nat, ts: seq<Track>, i: nat)
    requires |hs| == |bs| + 1 && j < |bs| && Extends(hs, bs, j, ts) && i < |ts|
    ensures True(hs, bs, j + 1, Touched(ts[i], |ts| - i <= bs[j].confirms + 1, bs[j].producer))
  {
    assert Confirms(bs[j], j, ts[i].num) <==> |ts| - i <= bs[j].confirms + 1;
    StaysTallied(bs, j, ts[i]);
  }

  lemma {:induction false} VoteStaysTrue(hs: seq<Header>, bs: seq<Block>, j: nat, ts: seq<Track>)
    requires |hs| == |bs| + 1 && j < |bs| && Extends(hs, bs, j, ts)
    ensures AllTrue(hs, bs, j + 1, Vote(ts, bs[j].confirms + 1, bs[j].producer).0)
  {
    var p, n := bs[j].producer, bs[j].confirms + 1;
    var left := Vote(ts, n, p).0;
    VoteLeavesEnd(ts, n, p);
    forall i | 0 <= i < |left| ensures True(hs, bs, j + 1, left[i]) {
      TouchedTrue(hs, bs, j, ts, |ts| - |left| + i);
    }
  }

  lemma {:induction false} DoneIsTrue(hs: seq<Header>, bs: seq<Block>, j: nat, ts: seq<Track>)
    requires |hs| == |bs| + 1 && j < |bs| && Extends(hs, bs, j, ts)
    requires Vote(ts, bs[j].confirms + 1, bs[j].producer).1 != []
    ensures var t := Vote(ts, bs[j].confirms + 1, bs[j].producer).1[0]; True(hs, bs, j + 1, t) && t.count == 0
  {
    var p, n := bs[j].producer, bs[j].confirms + 1;
    VoteCompletes(ts, n, p);
    TouchedTrue(hs, bs, j, ts, |ts| - |Vote(ts, n, p).0| - 1);
  }

  /** The record `ts` matches header `j` and is true. */
  ghost predicate Recorded(hs: seq<Header>, bs: seq<Block>, j: nat, ts: seq<Track>)
    requires |hs| == |bs| + 1 && j <= |bs|
  {
    Sound(History(hs[j], ts)) && AllTrue(hs, bs, j, ts)
  }

  lemma {:induction false} RecordExtended(hs: seq<Header>, bs: seq<Block>, j: nat, ts: seq<Track>)
    requires |hs| == |bs| + 1 && j < |bs| && hs[j].num == j + 1 && IsStep(hs[j], bs[j], hs[j+1])
    requires Recorded(hs, bs, j, ts)
    ensures Extends(hs, bs, j, TracksExtended(History(hs[j], ts)))
  {
    var y := History(hs[j], ts);
    ExtendedSound(y);
    RecordTallied(hs, bs, j, y);
    if !Overreaches(bs[j], j) { RecordNew(y, bs[j], j); }
  }

  lemma {:induction false} RecordNew(y: History, b: Block, j: nat)
    requires Sound(y) && y.header.num == j + 1 && b.producer in y.header.schedule
    requires MayConfirm(y.header, b.producer, b.confirms) && !Overreaches(b, j)
    ensures var ts := TracksExtended(y);
            forall i :: 0 <= i < |ts| && Confirms(b, j, ts[i].num) ==> b.producer !in ts[i].voters
  {
    var ts := TracksExtended(y);
    ExtendedSound(y);
    forall i | 0 <= i < |ts| && Confirms(b, j, ts[i].num) ensures b.producer !in ts[i].voters {
      NotVotedYet(y, b.producer, b.confirms, i);
    }
  }

  lemma {:induction false} RecordTallied(hs: seq<Header>, bs: seq<Block>, j: nat, y: History)
    requires |hs| == |bs| + 1 && j < |bs| && hs[j].num == j + 1 && y.header == hs[j]
    requires Sound(y) && AllTrue(hs, bs, j, y.tracks)
    ensures var ts := TracksExtended(y);
            forall i :: 0 <= i < |ts| ==> ts[i].count > 0 && Placed(hs, j + 1, ts[i]) && Tallied(bs, j, ts[i])
  {
    var ts := TracksExtended(y);
    ExtendedSound(y);
    forall i | 0 <= i < |ts|
      ensures ts[i].count > 0 && Placed(hs, j + 1, ts[i]) && Tallied(bs, j, ts[i])
    {
      assert Counts(ts)[i] == ts[i].count;
      if i < |Kept(y)| {
        assert ts[i] == y.tracks[|y.tracks| - |Kept(y)| + i];
      } else {
        NewestTallied(bs, j, ts[i]);
      }
    }
  }

  /** Every run has such a record, header by header. */
  lemma {:induction false} RecordHolds(hs: seq<Header>, bs: seq<Block>, j: nat) returns (ts: seq<Track>)
    requires IsRun(hs, bs) && j <= |bs|
    ensures Recorded(hs, bs, j, ts)
  {
    if j == 0 {
      ts := [];
      RunIsSane(hs, bs, 0);
    } else {
      ts := RecordHolds(hs, bs, j - 1);
      ts := RecordStep(hs, bs, j - 1, ts);
    }
  }

  lemma {:induction false} RecordStep(hs: seq<Header>, bs: seq<Block>, j: nat, was: seq<Track>)
      returns (ts: seq<Track>)
    requires IsRun(hs, bs) && j < |bs| && Recorded(hs, bs, j, was)
    ensures Recorded(hs, bs, j + 1, ts)
  {
    var y, b := History(hs[j], was), bs[j];
    RunIsSane(hs, bs, j);
    assert StepAt(hs, bs, j);
    RecordExtended(hs, bs, j, was);
    VoteStaysTrue(hs, bs, j, TracksExtended(y));
    NextSound(y, b.producer, b.confirms, b.proposal);
    ts := Vote(TracksExtended(y), b.confirms + 1, b.producer).0;
  }

  // ---- The safety of proposing ----

  /** Block `n` is among the first ones and has been confirmed by more than two thirds of the schedule of its
      own time. */
  ghost predicate Quorum(hs: seq<Header>, bs: seq<Block>, j: nat, n: nat)
    requires |hs| == |bs| + 1 && j <= |bs|
  {
    2 <= n <= j + 1 && 3 * |Confirmers(bs, j, n)| > 2 * |hs[n-2].schedule|
  }

  lemma {:induction false} QuorumOf(hs: seq<Header>, bs: seq<Block>, j: nat, t: Track)
    requires |hs| == |bs| + 1 && j <= |bs| && True(hs, bs, j, t) && t.count == 0
    ensures Quorum(hs, bs, j, t.num) <==> NoRepeat(bs, j, t.num)
  {
    ConfirmersCount(bs, j, t.num);
    OnceExactly(bs, j, t.num);
    RequiredExact(hs[t.num - 2].schedule, |Confirmers(bs, j, t.num)|);
  }

  /** The safety of proposing.  In every run, through any changes of schedule: a block that becomes proposed has
      been confirmed by more than two thirds of the schedule of its own time exactly when no header so far that
      confirms more blocks than there are is by a producer that had confirmed the block before. */
  lemma {:induction false} ProposedHasQuorum(hs: seq<Header>, bs: seq<Block>, j: nat)
    requires IsRun(hs, bs) && j < |bs| && hs[j+1].proposed != hs[j].proposed
    ensures Quorum(hs, bs, j + 1, hs[j+1].proposed) <==> NoRepeat(bs, j + 1, hs[j+1].proposed)
  {
    var record := RecordHolds(hs, bs, j);
    var y := History(hs[j], record);
    RunIsSane(hs, bs, j);
    assert StepAt(hs, bs, j);
    RecordExtended(hs, bs, j, record);
    StepHits(y, bs[j], hs[j+1]);
    DoneIsTrue(hs, bs, j, TracksExtended(y));
    QuorumOf(hs, bs, j + 1, Vote(TracksExtended(y), bs[j].confirms + 1, bs[j].producer).1[0]);
  }

  /** The blocks after the proposed one are tracked, except those 1024 or more blocks back. */
  lemma {:induction false} TrackedExactly(hs: seq<Header>, bs: seq<Block>, j: nat)
    requires IsRun(hs, bs) && 0 < j < |hs|
    ensures Tracks(hs[j].num, hs[j].proposed, |hs[j].confirm|)
  {
    RunIsSane(hs, bs, j - 1);
    assert StepAt(hs, bs, j - 1);
    if j > 1 {
      TrackedExactly(hs, bs, j - 1);
      TracksNext(hs[j-1], bs[j-1].confirms);
    } else {
      TracksFirst(hs[0], bs[0].confirms);
    }
  }

  predicate Tracks(num: nat, proposed: nat, n: nat) {
    n == if num - proposed < 1024 then num - proposed else 1024
  }

  lemma {:induction false} TracksNext(h: Header, k: nat)
    requires Sane(h) && Tracks(h.num, h.proposed, |h.confirm|)
    ensures Tracks(h.num + 1, ProposedNext(h, k), |Confirmed(Extended(h), k + 1).0|)
  {
    ConfirmedFacts(Extended(h), k + 1);
  }

  lemma {:induction false} TracksFirst(h: Header, k: nat)
    requires exists e :: h == Genesis(e)
    ensures Tracks(h.num + 1, ProposedNext(h, k), |Confirmed(Extended(h), k + 1).0|)
  {
    assert Extended(h) == [] + [1];
    ConfirmedLast([], 1, k + 1);
  }

  /** And none of them has more than two thirds behind it: a block becomes proposed as soon as it can. */
  lemma {:induction false} TrackedLacksQuorum(hs: seq<Header>, bs: seq<Block>, j: nat, n: nat)
    requires IsRun(hs, bs) && 0 < j < |hs| && hs[j].proposed < n <= hs[j].num < n + 1024
    ensures !Quorum(hs, bs, j, n)
  {
    var ts := RecordHolds(hs, bs, j);
    RunIsSane(hs, bs, j);
    TrackedExactly(hs, bs, j);
    assert |Counts(ts)| == |ts|;
    var i := |ts| - 1 - (hs[j].num - n);
    assert ts[i].num == n && True(hs, bs, j, ts[i]) && Counts(ts)[i] == ts[i].count > 0;
    ConfirmersCount(bs, j, n);
    RequiredExact(hs[n-2].schedule, |Confirmers(bs, j, n)|);
  }

  // ---- The safety of irreversibility ----

  /** `v` is the number no block has, or that of a block that was proposed by header `j`. */
  ghost predicate WasProposed(hs: seq<Header>, j: nat, v: nat)
    requires j < |hs|
  {
    v == 0 || exists i :: ProposedAt(hs, j, i, v)
  }

  /** Header `i`, no later than header `j`, is the one at which block `v` became proposed. */
  ghost predicate ProposedAt(hs: seq<Header>, j: nat, i: int, v: nat)
    requires j < |hs|
  {
    0 < i <= j && hs[i].proposed == v && hs[i-1].proposed != v
  }

  ghost predicate AllProposed(hs: seq<Header>, j: nat)
    requires j < |hs|
  {
    && WasProposed(hs, j, hs[j].proposed) && WasProposed(hs, j, hs[j].lib)
    && (forall q <- hs[j].implied :: WasProposed(hs, j, hs[j].implied[q]))
  }

  lemma {:induction false} NthIsValue(m: map<Producer, nat>, k: nat)
    requires k < |m|
    ensures exists q :: q in m && m[q] == Nth(m, k)
  {
    var v := Nth(m, k);
    var here := set q | q in m && m[q] == v;
    assert UpTo(m, v) == Behind(m, v) + here;
    var q :| q in here;
  }

  lemma {:induction false} LibIsImplied(h: Header, p: Producer)
    ensures var v := LastIrreversible(h.implied, p, h.proposed);
            v == 0 || v == h.proposed || exists q :: q in h.implied && h.implied[q] == v
  {
    var m := Voted(h.implied, p, h.proposed);
    if m != map[] { NthIsValue(m, Third(m)); }
  }

  /** Where the numbers of the next header come from. */
  ghost predicate NumbersFrom(h: Header, n: Header) {
    && (n.lib == 0 || n.lib == h.proposed || exists q :: q in h.implied && h.implied[q] == n.lib)
    && forall q <- n.implied ::
         n.implied[q] == n.lib || n.implied[q] == h.proposed || (q in h.implied && n.implied[q] == h.implied[q])
  }

  lemma {:induction false} NextNumbers(h: Header, b: Block, n: Header)
    requires IsStep(h, b, n)
    ensures NumbersFrom(h, n)
  {
    LibIsImplied(h, b.producer);
  }

  lemma {:induction false} NumbersStep(hs: seq<Header>, j: nat)
    requires 0 < j < |hs| && AllProposed(hs, j - 1) && NumbersFrom(hs[j-1], hs[j])
    ensures AllProposed(hs, j)
  {
    forall v | WasProposed(hs, j - 1, v) ensures WasProposed(hs, j, v) {
      if v != 0 {
        var i :| ProposedAt(hs, j - 1, i, v);
        assert ProposedAt(hs, j, i, v);
      }
    }
    assert hs[j].proposed != hs[j-1].proposed ==> ProposedAt(hs, j, j, hs[j].proposed);
  }

  lemma {:induction false} NumbersWereProposed(hs: seq<Header>, bs: seq<Block>, j: nat)
    requires IsRun(hs, bs) && j < |hs|
    ensures AllProposed(hs, j)
  {
    if j > 0 {
      NumbersWereProposed(hs, bs, j - 1);
      assert StepAt(hs, bs, j - 1);
      NextNumbers(hs[j-1], bs[j-1], hs[j]);
      NumbersStep(hs, j);
    }
  }

  lemma {:induction false} QuorumStays(hs: seq<Header>, bs: seq<Block>, i: nat, j: nat, n: nat)
    requires |hs| == |bs| + 1 && i <= j <= |bs| && Quorum(hs, bs, i, n)
    ensures Quorum(hs, bs, j, n)
  {
    forall q | q in Confirmers(bs, i, n) ensures q in Confirmers(bs, j, n) { }
    SubsetSize(Confirmers(bs, i, n), Confirmers(bs, j, n));
  }

  lemma {:induction false} FewerRepeats(bs: seq<Block>, i: nat, j: nat, n: nat)
    requires i <= j <= |bs| && NoRepeat(bs, j, n)
    ensures NoRepeat(bs, i, n)
  {
  }

  /** The safety of irreversibility.  In every run every irreversible block became proposed at some header, and
      had been confirmed by more than two thirds of the schedule of its own time exactly when no overreaching
      header up to then was by one that had confirmed it before; without any such header at all it always has. */
  lemma {:induction false} IrreversibleHasQuorum(hs: seq<Header>, bs: seq<Block>, j: nat)
    requires IsRun(hs, bs) && j < |hs| && hs[j].lib != 0
    ensures exists i ::
              ProposedAt(hs, j, i, hs[j].lib) && (Quorum(hs, bs, i, hs[j].lib) <==> NoRepeat(bs, i, hs[j].lib))
    ensures NoRepeat(bs, j, hs[j].lib) ==> Quorum(hs, bs, j, hs[j].lib)
  {
    var v := hs[j].lib;
    NumbersWereProposed(hs, bs, j);
    var i :| ProposedAt(hs, j, i, v);
    ProposedHasQuorum(hs, bs, i - 1);
    if NoRepeat(bs, j, v) {
      FewerRepeats(bs, i, j, v);
      QuorumStays(hs, bs, i, j, v);
    }
  }
}
