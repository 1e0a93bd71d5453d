/** The `id` that chainbase objects do not have to reflect. */
module ImplicitId {
  import opened Sequences
  import opened Matching
  import opened Reflections
  import opened Validation
  import MatchingRules

  lemma {:induction false} WithoutInserted(front: seq<Field>, back: seq<Field>, x: Field, d: set<Field>)
    requires x !in front && x !in back && x in d
    ensures Without(front + [x] + back, d) == Without(front + back, d - {x})
    decreases |front|
  {
    if front == [] {
      assert front + [x] + back == [x] + back && front + back == back;
      WithoutAgree(back, d, d - {x});
    } else {
      assert (front + [x] + back)[1..] == front[1..] + [x] + back && (front + back)[1..] == front[1..] + back;
      WithoutInserted(front[1..], back, x, d);
    }
  }

  lemma {:induction false} DistinctInserted(front: seq<Field>, back: seq<Field>, x: Field)
    requires x !in front && x !in back
    ensures Distinct(front + [x] + back) <==> Distinct(front + back)
  {
    var c, d, k := front + [x] + back, front + back, |front|;
    assert forall i :: 0 <= i < |d| ==> d[i] == c[if i < k then i else i + 1] && d[i] != x;
    if Distinct(d) {
      forall i, j | 0 <= i < j < |c| ensures c[i] != c[j] {
        if i != k && j != k { assert d[if i < k then i else i - 1] != d[if j < k then j else j - 1]; }
      }
    }
  }

  lemma {:induction false} AgreeInserted(front: seq<Field>, back: seq<Field>, r: seq<Field>, x: Field,
                                         swapped: set<Field>, ignored: set<Field>)
    requires x !in front && x !in back && x !in r && x !in swapped && x !in ignored
    ensures Agree(front + [x] + back, r, swapped, ignored + {x}) <==> Agree(front + back, r, swapped, ignored)
  {
    var c, d := front + [x] + back, front + back;
    DistinctInserted(front, back, x);
    WithoutInserted(front, back, x, swapped + ignored + {x});
    assert swapped + (ignored + {x}) == swapped + ignored + {x};
    assert swapped + ignored + {x} - {x} == swapped + ignored;
    assert forall y :: y != x ==> (y in c <==> y in d);
    assert c[|front|] == x;
  }

  /** A needless mark is still one with an ignored field in the class, unless that stands within its stretch. */
  lemma {:induction false} NeedlessInserted(front: seq<Field>, back: seq<Field>, r: seq<Field>, x: Field,
                                            swapped: set<Field>)
    requires x !in front && x !in back && x !in r && x !in swapped
    ensures Needless(front + [x] + back, r, swapped) <==>
            exists i: nat, p: nat, q: nat ::
              NeedlessAt(front + back, r, swapped, i, p, q) && !(i <= |front| <= p)
  {
    var c, d, k := front + [x] + back, front + back, |front|;
    forall i: nat, p: nat, q: nat | NeedlessAt(c, r, swapped, i, p, q)
      ensures exists i': nat, p': nat, q': nat :: NeedlessAt(d, r, swapped, i', p', q') && !(i' <= k <= p')
    {
      NeedlessWithout(front, back, r, x, swapped, i, p, q);
      assert NeedlessAt(d, r, swapped, if p < k then i else i - 1, if p < k then p else p - 1, q);
    }
    forall i: nat, p: nat, q: nat | NeedlessAt(d, r, swapped, i, p, q) && !(i <= k <= p)
      ensures Needless(c, r, swapped)
    {
      NeedlessWith(front, back, r, x, swapped, i, p, q);
    }
  }

  lemma {:induction false} NeedlessWithout(front: seq<Field>, back: seq<Field>, r: seq<Field>, x: Field,
                                           swapped: set<Field>, i: nat, p: nat, q: nat)
    requires x !in front && x !in back && x !in r && x !in swapped
    requires NeedlessAt(front + [x] + back, r, swapped, i, p, q)
    ensures p < |front| || i > |front| + 1
    ensures NeedlessAt(front + back, r, swapped, if p < |front| then i else i - 1, if p < |front| then p else p - 1, q)
  {
    var c, d, k := front + [x] + back, front + back, |front|;
    assert c[k] == x;
    if p >= k {
      assert i > k + 1;
      forall j | i - 1 <= j <= p - 1 ensures d[j] in swapped && d[j] !in r[..q] { assert d[j] == c[j+1]; }
    } else {
      forall j | i <= j <= p ensures d[j] in swapped && d[j] !in r[..q] { assert d[j] == c[j]; }
    }
  }

  lemma {:induction false} NeedlessWith(front: seq<Field>, back: seq<Field>, r: seq<Field>, x: Field,
                                        swapped: set<Field>, i: nat, p: nat, q: nat)
    requires x !in front && x !in back && x !in r && x !in swapped
    requires NeedlessAt(front + back, r, swapped, i, p, q) && !(i <= |front| <= p)
    ensures Needless(front + [x] + back, r, swapped)
  {
    var c, d, k := front + [x] + back, front + back, |front|;
    if p < k {
      forall j | i <= j <= p ensures c[j] in swapped && c[j] !in r[..q] { assert d[j] == c[j]; }
      assert NeedlessAt(c, r, swapped, i, p, q);
    } else {
      forall j | i + 1 <= j <= p + 1 ensures c[j] in swapped && c[j] !in r[..q] { assert d[j-1] == c[j]; }
      assert NeedlessAt(c, r, swapped, i + 1, p + 1, q);
    }
  }

  /** What the macro and its annotations say nothing about. */
  ghost predicate Unmentioned(r: Record) { ID !in r.fields && ID !in r.ignored && ID !in r.swapped }

  /** A chainbase object whose macro does not mention `id` is accepted with it anywhere in the class exactly when
      the rest agrees and every needless mark has the `id` within its stretch. */
  lemma {:induction false} AnywhereExactly(r: Record, front: seq<Field>, back: seq<Field>)
    requires WellMarked(r) && Unmentioned(r) && ID !in front && ID !in back
    ensures Verdicts(r, true, front + [ID] + back) == Accepted <==>
            && Agree(front + back, r.fields, Names(r.swapped), Names(r.ignored))
            && forall i: nat, p: nat, q: nat ::
                 NeedlessAt(front + back, r.fields, Names(r.swapped), i, p, q) ==> i <= |front| <= p
  {
    var c, swapped, ignored := front + [ID] + back, Names(r.swapped), Names(r.ignored);
    assert Names(r.ignored + [ID]) == ignored + {ID};
    DecideExact(c, r.fields, swapped, ignored + {ID});
    AgreeInserted(front, back, r.fields, ID, swapped, ignored);
    NeedlessInserted(front, back, r.fields, ID, swapped);
  }

  /** That is when the class without it is accepted, unless a swapped field comes next; what is accepted without
      it is always accepted with it. */
  lemma {:induction false} AnywhereLikeWithout(r: Record, front: seq<Field>, back: seq<Field>)
    requires WellMarked(r) && Unmentioned(r) && ID !in front && ID !in back
    ensures Verdicts(r, false, front + back) == Accepted ==> Verdicts(r, true, front + [ID] + back) == Accepted
    ensures back == [] || back[0] !in r.swapped ==>
            (Verdicts(r, true, front + [ID] + back) == Accepted <==> Verdicts(r, false, front + back) == Accepted)
  {
    var d, swapped, ignored := front + back, Names(r.swapped), Names(r.ignored);
    AnywhereExactly(r, front, back);
    DecideExact(d, r.fields, swapped, ignored);
    if back == [] || back[0] !in r.swapped {
      forall i: nat, p: nat, q: nat | NeedlessAt(d, r.fields, swapped, i, p, q) ensures !(i <= |front| <= p) {
        assert back != [] ==> d[|front|] == back[0];
      }
    }
  }

  /** Before a swapped field it can matter: `id` hides a mark that is rejected without it. */
  lemma {:induction false} HidesAMark(x: Field)
    requires x != ID
    ensures var r := Record([x], [], [x]);
            Verdicts(r, true, [ID, x]) == Accepted && Verdicts(r, false, [x]) != Accepted
  {
    var r := Record([x], [], [x]);
    var none: seq<Field> := [];
    assert none + [ID] + [x] == [ID, x] && none + [x] == [x];
    assert Names(r.swapped) == {x} && Names(r.ignored) == {};
    AgreesAlone(x);
    AnywhereExactly(r, none, [x]);
    RejectedAlone(x);
  }

  lemma {:induction false} AgreesAlone(x: Field)
    ensures Agree([x], [x], {x}, {})
  {
    var all: set<Field> := {x};
    assert all + {} == all && Without([x], all) == Without([], all) == [];
  }

  lemma {:induction false} RejectedAlone(x: Field)
    ensures Decide([x], [x], {x}, {}) != Accepted
  {
    DecideExact([x], [x], {x}, {});
    assert NeedlessAt([x], [x], {x}, 0, 0, 0);
  }

  /** A chainbase object without an `id` is rejected when its macro does not mention it. */
  lemma {:induction false} MissingRejected(r: Record, c: seq<Field>)
    requires WellMarked(r) && Unmentioned(r) && ID !in c
    ensures Verdicts(r, true, c) != Accepted
  {
    assert Names(r.ignored + [ID]) == Names(r.ignored) + {ID};
    DecideExact(c, r.fields, Names(r.swapped), Names(r.ignored) + {ID});
    assert ID in Names(r.ignored) + {ID};
  }

  /** An `id` that is reflected or marked as ignored is treated as in any other class; one marked as swapped and
      not reflected is rejected. */
  lemma {:induction false} MentionedLikeOthers(r: Record, c: seq<Field>)
    requires WellMarked(r) && !Unmentioned(r)
    ensures ID in r.fields || ID in r.ignored ==> Verdicts(r, true, c) == Verdicts(r, false, c)
    ensures ID !in r.fields && ID !in r.ignored ==> Verdicts(r, true, c) != Accepted
  {
    if ID !in r.fields && ID !in r.ignored {
      var ignored := Names(r.ignored + [ID]);
      assert (r.ignored + [ID])[|r.ignored|] == ID;
      MatchingRules.ContradictoryMark(c, r.fields, r.fields, Start(Names(r.swapped), ignored), ID);
    }
  }
}
