/** Who has confirmed the blocks that a header tracks: the counts with the voters kept. */
module DposVotes {
  import opened Dpos

  // ---- The confirmation loop with the voters kept ----

  /** A tracked block: what its count says, and who has confirmed it. */
  datatype Track = Track(num: nat, count: nat, need: nat, voters: set<Producer>)

  /** What stays tracked after `p` confirms the last `n` blocks, and the block that is done. */
  function Vote(ts: seq<Track>, n: nat, p: Producer): (seq<Track>, seq<Track>)
    decreases n
  {
    if ts == [] || n == 0 then (ts, [])
    else
      var i := |ts| - 1;
      var t := ts[i].(count := if ts[i].count == 0 then 0 else ts[i].count - 1, voters := ts[i].voters + {p});
      if ts[i].count <= 1 then ([], [t])
      else
        var (rest, done) := Vote(ts[..i], n - 1, p);
        (rest + [t], done)
  }

  function Counts(ts: seq<Track>): seq<nat> { seq(|ts|, i requires 0 <= i < |ts| => ts[i].count) }

  /** Every confirmation counted was by a different producer. */
  ghost predicate Fair(t: Track) { t.count > 0 && |t.voters| + t.count == t.need }

  ghost predicate AllFair(ts: seq<Track>) { forall i :: 0 <= i < |ts| ==> Fair(ts[i]) }

  /** A track after the round, when it was in its range and when not. */
  function Touched(t: Track, reached: bool, p: Producer): Track {
    if reached then t.(count := if t.count == 0 then 0 else t.count - 1, voters := t.voters + {p}) else t
  }

  lemma {:induction false} VoteLast(front: seq<Track>, t: Track, n: nat, p: Producer)
    requires n > 0
    ensures Vote(front + [t], n, p) ==
            if t.count <= 1 then ([], [Touched(t, true, p)])
            else (Vote(front, n - 1, p).0 + [Touched(t, true, p)], Vote(front, n - 1, p).1)
  {
    assert (front + [t])[..|front|] == front;
  }

  /** The voters change nothing for the counts. */
  lemma {:induction false} VoteCounts(ts: seq<Track>, n: nat, p: Producer)
    ensures var (left, done) := Vote(ts, n, p);
            var (counts, hit) := Confirmed(Counts(ts), n);
            && Counts(left) == counts
            && (if hit < 0 then done == [] else hit < |ts| && |done| == 1 && done[0].num == ts[hit].num)
    decreases n
  {
    if ts != [] && n > 0 {
      var i := |ts| - 1;
      assert Counts(ts)[..i] == Counts(ts[..i]);
      VoteCounts(ts[..i], n - 1, p);
    }
  }

  /** Among the blocks `p` is about to confirm there is one it confirmed before, and neither that block
      nor a later one is down to its last missing confirmation, so that the block stays tracked. */
  ghost predicate Repeats(ts: seq<Track>, n: nat, p: Producer) {
    exists i :: 0 <= i < |ts| && |ts| - n <= i && p in ts[i].voters && Short(ts, i)
  }

  ghost predicate Short(ts: seq<Track>, i: int)
    requires 0 <= i
  {
    forall j :: i <= j < |ts| ==> ts[j].count > 1
  }

  lemma {:induction false} RepeatsLast(front: seq<Track>, t: Track, n: nat, p: Producer)
    requires n > 0
    ensures Repeats(front + [t], n, p) <==> t.count > 1 && (p in t.voters || Repeats(front, n - 1, p))
  {
    var ts, k := front + [t], |front|;
    if Repeats(ts, n, p) {
      var i :| 0 <= i < |ts| && |ts| - n <= i && p in ts[i].voters && Short(ts, i);
      assert ts[k].count > 1;
      if i < k {
        forall j | i <= j < k ensures front[j].count > 1 { assert front[j] == ts[j]; }
        assert Short(front, i) && p in front[i].voters;
      }
    }
    if t.count > 1 && p in t.voters { assert Short(ts, k) && p in ts[k].voters; }
    if t.count > 1 && Repeats(front, n - 1, p) {
      var i :| 0 <= i < k && k - (n - 1) <= i && p in front[i].voters && Short(front, i);
      assert Short(ts, i) && p in ts[i].voters;
    }
  }

  lemma {:induction false} AllFairLast(front: seq<Track>, t: Track)
    ensures AllFair(front + [t]) <==> AllFair(front) && Fair(t)
  {
    var ts := front + [t];
    assert ts[|front|] == t;
    assert forall i :: 0 <= i < |front| ==> ts[i] == front[i];
  }

  lemma {:induction false} FairTouched(t: Track, p: Producer)
    requires Fair(t) && t.count > 1
    ensures Fair(Touched(t, true, p)) <==> p !in t.voters
  {
  }

  /** A round keeps the counts honest exactly when it repeats no vote for a block that stays tracked. */
  lemma {:induction false} VoteFair(ts: seq<Track>, n: nat, p: Producer)
    requires AllFair(ts)
    ensures AllFair(Vote(ts, n, p).0) <==> !Repeats(ts, n, p)
    decreases n
  {
    if ts != [] && n > 0 {
      var front, t := ts[..|ts| - 1], ts[|ts| - 1];
      assert ts == front + [t];
      AllFairLast(front, t);
      VoteFair(front, n - 1, p);
      VoteFairLast(front, t, n, p);
    }
  }

  lemma {:induction false} VoteFairLast(front: seq<Track>, t: Track, n: nat, p: Producer)
    requires n > 0 && Fair(t) && (AllFair(Vote(front, n - 1, p).0) <==> !Repeats(front, n - 1, p))
    ensures AllFair(Vote(front + [t], n, p).0) <==> !Repeats(front + [t], n, p)
  {
    VoteLast(front, t, n, p);
    RepeatsLast(front, t, n, p);
    if t.count > 1 {
      FairTouched(t, p);
      AllFairLast(Vote(front, n - 1, p).0, Touched(t, true, p));
    }
  }

  /** What stays tracked is the end of the list, touched where the round has reached it. */
  ghost predicate IsEnd(ts: seq<Track>, left: seq<Track>, n: nat, p: Producer) {
    && |left| <= |ts|
    && forall j :: 0 <= j < |left| ==> left[j] == Touched(ts[|ts| - |left| + j], |left| - j <= n, p)
  }

  lemma {:induction false} IsEndLast(front: seq<Track>, rest: seq<Track>, t: Track, n: nat, p: Producer)
    requires n > 0 && IsEnd(front, rest, n - 1, p)
    ensures IsEnd(front + [t], rest + [Touched(t, true, p)], n, p)
  {
    var ts, left, k := front + [t], rest + [Touched(t, true, p)], |rest|;
    forall j | 0 <= j < |left| ensures left[j] == Touched(ts[|ts| - |left| + j], |left| - j <= n, p) {
      if j < k { assert left[j] == rest[j] && ts[|ts| - |left| + j] == front[|front| - k + j]; }
    }
  }

  lemma {:induction false} VoteLeavesEnd(ts: seq<Track>, n: nat, p: Producer)
    ensures IsEnd(ts, Vote(ts, n, p).0, n, p)
    decreases n
  {
    if ts != [] && n > 0 {
      var front, t := ts[..|ts| - 1], ts[|ts| - 1];
      assert ts == front + [t];
      VoteLast(front, t, n, p);
      if t.count > 1 {
        VoteLeavesEnd(front, n - 1, p);
        IsEndLast(front, Vote(front, n - 1, p).0, t, n, p);
      }
    }
  }

  /** The block that is done is the last one that lacked one confirmation, the one before those left, and is
      within the range. */
  ghost predicate Completes(ts: seq<Track>, n: nat, p: Producer, left: seq<Track>, done: seq<Track>) {
    && |left| < |ts| && |left| < n
    && var d := |ts| - |left| - 1;
       ts[d].count <= 1 && Short(ts, d + 1) && done == [Touched(ts[d], true, p)]
  }

  lemma {:induction false} VoteCompletes(ts: seq<Track>, n: nat, p: Producer)
    requires Vote(ts, n, p).1 != []
    ensures Completes(ts, n, p, Vote(ts, n, p).0, Vote(ts, n, p).1)
    decreases n
  {
    var front, t := ts[..|ts| - 1], ts[|ts| - 1];
    assert ts == front + [t];
    VoteLast(front, t, n, p);
    if t.count > 1 {
      VoteCompletes(front, n - 1, p);
      CompletesLast(front, t, n, p, Vote(front, n - 1, p).0, Vote(front, n - 1, p).1);
    }
  }

  lemma {:induction false} CompletesLast(front: seq<Track>, t: Track, n: nat, p: Producer, left: seq<Track>,
                                         done: seq<Track>)
    requires n > 0 && t.count > 1 && Completes(front, n - 1, p, left, done)
    ensures Completes(front + [t], n, p, left + [Touched(t, true, p)], done)
  {
    ShortLast(front, t, |front| - |left|);
  }

  lemma {:induction false} ShortLast(front: seq<Track>, t: Track, i: nat)
    requires t.count > 1 && Short(front, i)
    ensures Short(front + [t], i)
  {
  }

  /** And there is such a block when one within the range lacks one confirmation. */
  lemma {:induction false} VoteHits(ts: seq<Track>, n: nat, p: Producer, i: nat)
    requires i < |ts| && |ts| - n <= i && ts[i].count <= 1
    ensures Vote(ts, n, p).1 != []
    decreases n
  {
    var front, t := ts[..|ts| - 1], ts[|ts| - 1];
    assert ts == front + [t];
    VoteLast(front, t, n, p);
    if t.count > 1 { VoteHits(front, n - 1, p, i); }
  }

  /** With honest counts it is done with as many different confirmers as it needs exactly when `p` is new to it. */
  lemma {:induction false} DoneIsEnough(ts: seq<Track>, n: nat, p: Producer)
    requires AllFair(ts) && Vote(ts, n, p).1 != []
    ensures var (left, done) := Vote(ts, n, p);
            Completes(ts, n, p, left, done) &&
            (|done[0].voters| == done[0].need <==> p !in ts[|ts| - |left| - 1].voters)
  {
    VoteCompletes(ts, n, p);
    var t := ts[|ts| - |Vote(ts, n, p).0| - 1];
    assert Fair(t);
  }

  // ---- A header with the record of who confirmed what it tracks ----

  datatype History = History(header: Header, tracks: seq<Track>)

  function Kept(y: History): seq<Track> { if |y.tracks| < MAX_TRACKED then y.tracks else y.tracks[1..] }

  function Newest(h: Header): Track { Track(h.num + 1, Required(h.schedule), Required(h.schedule), {}) }

  function TracksExtended(y: History): seq<Track> { Kept(y) + [Newest(y.header)] }

  /** The tracked blocks are the last ones up to block `num`. */
  ghost predicate Numbered(ts: seq<Track>, num: nat) {
    |ts| <= num && forall i :: 0 <= i < |ts| ==> ts[i].num == num - (|ts| - 1 - i)
  }

  /** Whoever confirmed a block has produced one since, or has left the schedule and cannot come back
      before the block is no longer tracked. */
  ghost predicate Answers(h: Header, q: Producer, n: nat) {
    if q in h.lastProduced then h.lastProduced[q] >= n
    else q !in h.schedule && (h.pending != [] ==> n < h.pendingLib)
  }

  ghost predicate Spoken(ts: seq<Track>, h: Header) {
    forall i, q :: 0 <= i < |ts| && q in ts[i].voters ==> Answers(h, q, ts[i].num)
  }

  ghost predicate Ordered(h: Header) { Sane(h) && (h.pending != [] ==> h.pendingLib <= h.num) }

  /** The record matches the header. */
  ghost predicate Sound(y: History) {
    && Counts(y.tracks) == y.header.confirm
    && Numbered(y.tracks, y.header.num) && Spoken(y.tracks, y.header) && Ordered(y.header)
  }

  /** And every confirmation counted is by a different producer. */
  ghost predicate Faithful(y: History) { Sound(y) && AllFair(y.tracks) }

  ghost function NextHistory(y: History, p: Producer, k: nat, proposal: seq<Producer>): History {
    History(Next(y.header, p, k, proposal), Vote(TracksExtended(y), k + 1, p).0)
  }

  lemma {:induction false} ExtendedSound(y: History)
    requires Sound(y)
    ensures var ts := TracksExtended(y);
            && Counts(ts) == Extended(y.header)
            && Numbered(ts, y.header.num + 1) && Spoken(ts, y.header) && (AllFair(y.tracks) ==> AllFair(ts))
  {
    var kept, ts := Kept(y), TracksExtended(y);
    assert |Counts(y.tracks)| == |y.tracks|;
    assert Counts(ts) == Counts(kept) + [Required(y.header.schedule)];
    forall i | 0 <= i < |ts| - 1 ensures ts[i] == y.tracks[|y.tracks| - |kept| + i] { }
  }

  /** Tracked blocks are past the proposed one. */
  lemma {:induction false} TrackedPastProposed(y: History, i: nat)
    requires Sound(y) && i < |TracksExtended(y)|
    ensures TracksExtended(y)[i].num > y.header.proposed
  {
    ExtendedSound(y);
    assert |Counts(y.tracks)| == |y.tracks|;
  }

  /** One voter of one block, when the schedule stays. */
  lemma {:induction false} AnswersNext(h: Header, p: Producer, k: nat, proposal: seq<Producer>, q: Producer, n: nat)
    requires Answers(h, q, n) && n <= h.num && !Promotes(h, p)
    ensures Answers(Next(h, p, k, proposal), q, n)
  {
  }

  /** And when it changes: the block is past the number at which the pending schedule was announced. */
  lemma {:induction false} AnswersPromoted(h: Header, p: Producer, k: nat, proposal: seq<Producer>, q: Producer, n: nat)
    requires Answers(h, q, n) && Sane(h) && n <= h.num && Promotes(h, p) && n > h.proposed
    ensures Answers(Next(h, p, k, proposal), q, n)
  {
    LastIrreversibleBounds(h, p);
  }

  lemma {:induction false} ProducerAnswers(h: Header, p: Producer, k: nat, proposal: seq<Producer>, n: nat)
    requires n <= h.num + 1
    ensures Answers(Next(h, p, k, proposal), p, n)
  {
  }

  lemma {:induction false} VoterAnswers(y: History, p: Producer, k: nat, proposal: seq<Producer>, i: nat, q: Producer)
    requires Sound(y) && i < |TracksExtended(y)| && (q in TracksExtended(y)[i].voters || q == p)
    ensures Answers(Next(y.header, p, k, proposal), q, TracksExtended(y)[i].num)
  {
    var h, n := y.header, TracksExtended(y)[i].num;
    ExtendedSound(y);
    if q == p {
      ProducerAnswers(h, p, k, proposal, n);
    } else {
      assert TracksExtended(y)[i] != Newest(h);
      TrackedPastProposed(y, i);
      if Promotes(h, p) { AnswersPromoted(h, p, k, proposal, q, n); } else { AnswersNext(h, p, k, proposal, q, n); }
    }
  }

  /** Everyone who may be among the voters after the round answers to `g`. */
  ghost predicate AllAnswer(ts: seq<Track>, p: Producer, g: Header) {
    forall i, q :: 0 <= i < |ts| && (q in ts[i].voters || q == p) ==> Answers(g, q, ts[i].num)
  }

  lemma {:induction false} EndKeepsRecord(ts: seq<Track>, left: seq<Track>, n: nat, p: Producer, g: Header)
    requires IsEnd(ts, left, n, p) && Numbered(ts, g.num) && AllAnswer(ts, p, g)
    ensures Numbered(left, g.num) && Spoken(left, g)
  {
    forall i, q | 0 <= i < |left| && q in left[i].voters ensures Answers(g, q, left[i].num) {
      var t := ts[|ts| - |left| + i];
      assert left[i] == Touched(t, |left| - i <= n, p);
      assert q in t.voters || q == p;
    }
  }

  lemma {:induction false} VoteKeepsRecord(y: History, p: Producer, k: nat, proposal: seq<Producer>)
    requires Sound(y)
    ensures var z := NextHistory(y, p, k, proposal);
            Numbered(z.tracks, z.header.num) && Spoken(z.tracks, z.header)
  {
    var ts, g := TracksExtended(y), Next(y.header, p, k, proposal);
    ExtendedSound(y);
    VoteLeavesEnd(ts, k + 1, p);
    forall i, q | 0 <= i < |ts| && (q in ts[i].voters || q == p) ensures Answers(g, q, ts[i].num) {
      VoterAnswers(y, p, k, proposal, i, q);
    }
    EndKeepsRecord(ts, Vote(ts, k + 1, p).0, k + 1, p, g);
  }

  lemma {:induction false} NextIsOrdered(h: Header, p: Producer, k: nat, proposal: seq<Producer>)
    requires Ordered(h)
    ensures Ordered(Next(h, p, k, proposal))
    ensures Next(h, p, k, proposal).num == h.num + 1
    ensures Next(h, p, k, proposal).confirm == Confirmed(Extended(h), k + 1).0
  {
    NextKeepsSane(h, p, k, proposal);
  }

  /** Every next header, with a change of schedule or without, keeps the record matching. */
  lemma {:induction false} NextSound(y: History, p: Producer, k: nat, proposal: seq<Producer>)
    requires Sound(y)
    ensures Sound(NextHistory(y, p, k, proposal))
  {
    ExtendedSound(y);
    VoteCounts(TracksExtended(y), k + 1, p);
    VoteKeepsRecord(y, p, k, proposal);
    NextIsOrdered(y.header, p, k, proposal);
  }

  /** It keeps it faithful exactly when no vote is repeated. */
  lemma {:induction false} NextFaithfulExact(y: History, p: Producer, k: nat, proposal: seq<Producer>)
    requires Faithful(y)
    ensures Faithful(NextHistory(y, p, k, proposal)) <==> !Repeats(TracksExtended(y), k + 1, p)
  {
    ExtendedSound(y);
    VoteFair(TracksExtended(y), k + 1, p);
    NextSound(y, p, k, proposal);
  }

  /** The range check keeps a scheduled producer from confirming a block twice, unless its subtraction
      wraps. */
  lemma {:induction false} NotVotedYet(y: History, p: Producer, k: nat, i: nat)
    requires Sound(y) && p in y.header.schedule && MayConfirm(y.header, p, k) && k <= y.header.num + 1
    requires i < |TracksExtended(y)| && |TracksExtended(y)| - (k + 1) <= i
    ensures p !in TracksExtended(y)[i].voters
  {
    var ts := TracksExtended(y);
    ExtendedSound(y);
    assert ts[i].num >= y.header.num + 1 - k;
    assert p in ts[i].voters ==> Answers(y.header, p, ts[i].num);
  }

  /** The round leaves the counts honest, and a block that is done with as many confirmers as it needs. */
  ghost predicate Honest(y: History, p: Producer, k: nat, proposal: seq<Producer>) {
    && Faithful(NextHistory(y, p, k, proposal))
    && forall t <- Vote(TracksExtended(y), k + 1, p).1 :: |t.voters| == t.need
  }

  /** Among the blocks that a round of `n` gets to there is one that `p` confirmed before. */
  ghost predicate Again(ts: seq<Track>, n: nat, p: Producer) {
    exists i :: 0 <= i < |ts| && |ts| - n <= i && p in ts[i].voters && Short(ts, i + 1)
  }

  /** A round is honest exactly when it counts nobody again, for blocks that stay tracked and for the one done. */
  lemma {:induction false} RoundExact(ts: seq<Track>, n: nat, p: Producer)
    requires AllFair(ts)
    ensures !Repeats(ts, n, p) && (forall t <- Vote(ts, n, p).1 :: |t.voters| == t.need) <==> !Again(ts, n, p)
  {
    if Vote(ts, n, p).1 != [] { DoneIsEnough(ts, n, p); }
    forall i | 0 <= i < |ts| && |ts| - n <= i && p in ts[i].voters && Short(ts, i + 1)
      ensures Repeats(ts, n, p) || exists t :: t in Vote(ts, n, p).1 && |t.voters| != t.need
    {
      if ts[i].count > 1 {
        assert Short(ts, i);
      } else {
        VoteHits(ts, n, p, i);
        DoneIsEnough(ts, n, p);
        OnlyOne(ts, i, |ts| - |Vote(ts, n, p).0| - 1);
        assert Vote(ts, n, p).1[0] in Vote(ts, n, p).1;
      }
    }
    forall i | 0 <= i < |ts| && Short(ts, i) ensures Short(ts, i + 1) { }
  }

  /** When the subtraction wraps the range is the whole record. */
  lemma {:induction false} AgainExact(y: History, p: Producer, k: nat)
    requires Sound(y) && p in y.header.schedule && MayConfirm(y.header, p, k)
    ensures var ts := TracksExtended(y);
            Again(ts, k + 1, p) <==>
            k > y.header.num + 1 && exists i :: 0 <= i < |ts| && p in ts[i].voters && Short(ts, i + 1)
  {
    var ts := TracksExtended(y);
    ExtendedSound(y);
    if k <= y.header.num + 1 {
      forall i | 0 <= i < |ts| && |ts| - (k + 1) <= i ensures p !in ts[i].voters { NotVotedYet(y, p, k, i); }
    }
  }

  /** The check fails its purpose exactly when it wraps and the producer has confirmed a tracked block behind
      which no other lacks just one confirmation. */
  lemma {:induction false} RangeCheckExact(y: History, p: Producer, k: nat, proposal: seq<Producer>)
    requires Faithful(y) && p in y.header.schedule && MayConfirm(y.header, p, k)
    ensures Honest(y, p, k, proposal) <==>
            || k <= y.header.num + 1
            || var ts := TracksExtended(y); forall i :: 0 <= i < |ts| && p in ts[i].voters ==> !Short(ts, i + 1)
  {
    ExtendedSound(y);
    NextFaithfulExact(y, p, k, proposal);
    AgainExact(y, p, k);
    RoundExact(TracksExtended(y), k + 1, p);
  }

  lemma {:induction false} OnlyOne(ts: seq<Track>, i: nat, j: nat)
    requires i < |ts| && j < |ts| && ts[i].count <= 1 && ts[j].count <= 1 && Short(ts, i + 1) && Short(ts, j + 1)
    ensures i == j
  {
  }

  /** The step at which a block becomes proposed: it is the last tracked block that lacked one confirmation, it
      is within the range, and it has its confirmers exactly when the header confirms no more blocks than there
      are or its producer is new to that block. */
  lemma {:induction false} ProposesExact(y: History, b: Block, n: Header) returns (i: nat)
    requires Faithful(y) && IsStep(y.header, b, n) && n.proposed != y.header.proposed
    ensures var ts, done := TracksExtended(y), Vote(TracksExtended(y), b.confirms + 1, b.producer).1;
            && i < |ts| && |ts| - i <= b.confirms + 1 && ts[i].count == 1 && Short(ts, i + 1)
            && n.proposed == ts[i].num && done == [Touched(ts[i], true, b.producer)]
            && (|done[0].voters| == done[0].need <==> b.confirms <= y.header.num + 1 || b.producer !in ts[i].voters)
  {
    var ts := TracksExtended(y);
    ExtendedSound(y);
    StepHits(y, b, n);
    DoneIsEnough(ts, b.confirms + 1, b.producer);
    i := |ts| - |Vote(ts, b.confirms + 1, b.producer).0| - 1;
    assert Fair(ts[i]);
    if b.confirms <= y.header.num + 1 { NotVotedYet(y, b.producer, b.confirms, i); }
  }

  lemma {:induction false} StepHits(y: History, b: Block, n: Header)
    requires Sound(y) && IsStep(y.header, b, n) && n.proposed != y.header.proposed
    ensures var done := Vote(TracksExtended(y), b.confirms + 1, b.producer).1;
            done != [] && done[0].num == n.proposed
  {
    ExtendedSound(y);
    VoteCounts(TracksExtended(y), b.confirms + 1, b.producer);
  }
}
