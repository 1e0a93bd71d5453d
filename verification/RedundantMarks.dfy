/** When the tool keeps its rule that only fields out of order are marked as swapped. */
module RedundantMarks {
  import opened Sequences
  import opened Matching
  import opened MatchingRules

  /** The mark on `x` could be left out: the lists agree without it. */
  ghost predicate Redundant(c: seq<Field>, r: seq<Field>, swapped: set<Field>, ignored: set<Field>, x: Field) {
    x in swapped && Agree(c, r, swapped - {x}, ignored)
  }

  /** The swapped field at c[p] and r[q]. */
  ghost predicate Marked(c: seq<Field>, r: seq<Field>, swapped: set<Field>, p: nat, q: nat) {
    p < |c| && q < |r| && c[p] == r[q] && c[p] in swapped
  }

  // ---- In order: the same unmarked fields stand before it on both sides ----

  /** The first `x` is at one place only. */
  lemma {:induction false} FirstAt<T>(a: seq<T>, x: T, b: seq<T>, a': seq<T>, b': seq<T>)
    requires a + [x] + b == a' + [x] + b' && x !in a && x !in a'
    ensures a == a'
  {
    var s := a + [x] + b;
    assert s == a' + [x] + b' && s[|a|] == x && s[|a'|] == x;
    assert forall k :: 0 <= k < |a| ==> s[k] == a[k] && s[k] in a;
    assert forall k :: 0 <= k < |a'| ==> s[k] == a'[k] && s[k] in a';
    assert a == s[..|a|] && a' == s[..|a'|];
  }

  lemma {:induction false} SameCut<T>(a: seq<T>, x: T, b: seq<T>, a': seq<T>, b': seq<T>)
    requires a + b == a' + b' && x !in a && x !in a'
    ensures a + [x] + b == a' + [x] + b' <==> a == a'
  {
    if a + [x] + b == a' + [x] + b' { FirstAt(a, x, b, a', b'); }
    if a == a' { assert b == (a + b)[|a|..] && b' == (a' + b')[|a'|..]; }
  }

  /** Deleting around a marked field, with it and without it. */
  lemma {:induction false} AroundField(s: seq<Field>, p: nat, d: set<Field>)
    requires p < |s| && Distinct(s) && s[p] in d
    ensures Without(s, d) == Without(s[..p], d) + Without(s[p+1..], d)
    ensures Without(s, d - {s[p]}) == Without(s[..p], d) + [s[p]] + Without(s[p+1..], d)
  {
    var x := s[p];
    assert s == s[..p] + ([x] + s[p+1..]);
    WithoutConcat(s[..p], [x] + s[p+1..], d);
    WithoutConcat([x], s[p+1..], d);
    WithoutConcat(s[..p], [x] + s[p+1..], d - {x});
    WithoutConcat([x], s[p+1..], d - {x});
    WithoutEmpty([x], d);
    assert Without([x], d - {x}) == [x];
    WithoutAgree(s[..p], d, d - {x});
    WithoutAgree(s[p+1..], d, d - {x});
    var a, b := Without(s[..p], d), Without(s[p+1..], d);
    assert [] + b == b && a + ([x] + b) == a + [x] + b;
  }

  /** A mark is redundant exactly when the same unmarked fields stand before its field on both sides. */
  lemma {:induction false} RedundantExactly(c: seq<Field>, r: seq<Field>, swapped: set<Field>, ignored: set<Field>,
                                            p: nat, q: nat)
    requires Distinct(r) && swapped !! ignored && Agree(c, r, swapped, ignored) && Marked(c, r, swapped, p, q)
    ensures Redundant(c, r, swapped, ignored, c[p]) <==> Without(c[..p], swapped + ignored) == Without(r[..q], swapped)
  {
    var x, d := c[p], swapped + ignored;
    AroundField(c, p, d);
    AroundField(r, q, swapped);
    assert d - {x} == (swapped - {x}) + ignored;
    WithoutMember(c[..p], d, x);
    WithoutMember(r[..q], swapped, x);
    SameCut(Without(c[..p], d), x, Without(c[p+1..], d), Without(r[..q], swapped), Without(r[q+1..], swapped));
  }

  // ---- What the tool sees of it ----

  /** A redundant mark that the tool cannot see: the macro has a swapped field directly before it; or
      between it and the last unmarked field before it the class has an ignored field, or one that the
      macro has listed already. */
  ghost predicate Hidden(c: seq<Field>, r: seq<Field>, swapped: set<Field>, ignored: set<Field>, p: nat, q: nat)
    requires p < |c| && q < |r|
  {
    || (q > 0 && r[q-1] in swapped)
    || exists j :: 0 <= j < p && MarkedUpTo(c, swapped + ignored, j, p) && (c[j] in ignored || c[j] in r[..q])
  }

  ghost predicate MarkedUpTo(c: seq<Field>, d: set<Field>, j: nat, p: nat)
    requires p <= |c|
  {
    forall k :: j <= k < p ==> c[k] in d
  }

  /** The last field that is kept, and that none is kept behind it. */
  lemma {:induction false} LastKept(s: seq<Field>, d: set<Field>) returns (i: nat)
    ensures i <= |s| && MarkedUpTo(s, d, i, |s|)
    ensures if i == 0 then Without(s, d) == []
            else s[i-1] !in d && Without(s, d) != [] && Without(s, d)[|Without(s, d)| - 1] == s[i-1]
  {
    if s == [] {
      i := 0;
    } else {
      var n := |s| - 1;
      assert s == s[..n] + [s[n]];
      WithoutConcat(s[..n], [s[n]], d);
      if s[n] in d {
        WithoutEmpty([s[n]], d);
        i := LastKept(s[..n], d);
        assert Without(s[..n], d) + [] == Without(s[..n], d);
      } else {
        assert Without([s[n]], d) == [s[n]];
        i := |s|;
      }
    }
  }

  lemma {:induction false} KeptUpTo(s: seq<Field>, d: set<Field>, i: nat, p: nat)
    requires i <= p <= |s| && MarkedUpTo(s, d, i, p)
    ensures Without(s[..p], d) == Without(s[..i], d)
  {
    assert s[..p] == s[..i] + s[i..p];
    WithoutConcat(s[..i], s[i..p], d);
    WithoutEmpty(s[i..p], d);
    assert Without(s[..i], d) + [] == Without(s[..i], d);
  }

  /** What is kept up to and with a kept field. */
  lemma {:induction false} KeptThrough(s: seq<Field>, d: set<Field>, i: nat)
    requires 0 < i <= |s| && s[i-1] !in d && Distinct(s)
    ensures Without(s[..i], d) == Without(s[..i-1], d) + [s[i-1]] && s[i-1] !in Without(s[..i-1], d)
    ensures Without(s, d) == Without(s[..i-1], d) + [s[i-1]] + Without(s[i..], d)
  {
    assert s[..i] == s[..i-1] + [s[i-1]] && s == s[..i] + s[i..];
    WithoutConcat(s[..i-1], [s[i-1]], d);
    assert Without([s[i-1]], d) == [s[i-1]];
    WithoutConcat(s[..i], s[i..], d);
    WithoutMember(s[..i-1], d, s[i-1]);
  }

  /** The same kept field closes the same kept fields. */
  lemma {:induction false} SameBefore(c: seq<Field>, r: seq<Field>, d: set<Field>, e: set<Field>, i: nat, q: nat)
    requires Distinct(c) && Distinct(r) && Without(c, d) == Without(r, e)
    requires 0 < i <= |c| && 0 < q <= |r| && c[i-1] == r[q-1] && c[i-1] !in d && r[q-1] !in e
    ensures Without(c[..i], d) == Without(r[..q], e)
  {
    KeptThrough(c, d, i);
    KeptThrough(r, e, q);
    FirstAt(Without(c[..i-1], d), c[i-1], Without(c[i..], d), Without(r[..q-1], e), Without(r[q..], e));
  }

  lemma {:induction false} NeedlessIsRedundant(c: seq<Field>, r: seq<Field>, swapped: set<Field>, ignored: set<Field>,
                                               i: nat, p: nat, q: nat)
    requires Distinct(r) && swapped !! ignored && Agree(c, r, swapped, ignored) && NeedlessAt(c, r, swapped, i, p, q)
    ensures Redundant(c, r, swapped, ignored, c[p])
  {
    RedundantExactly(c, r, swapped, ignored, p, q);
    KeptUpTo(c, swapped + ignored, i, p);
    if q > 0 { SameBefore(c, r, swapped + ignored, swapped, i, q); }
  }

  lemma {:induction false} NeedlessIsSeen(c: seq<Field>, r: seq<Field>, swapped: set<Field>, ignored: set<Field>,
                                          i: nat, p: nat, q: nat)
    requires swapped !! ignored && Agree(c, r, swapped, ignored) && NeedlessAt(c, r, swapped, i, p, q)
    ensures !Hidden(c, r, swapped, ignored, p, q)
  {
    assert i > 0 ==> c[i-1] == r[q-1] && c[i-1] !in swapped + ignored;
    forall j | 0 <= j < p && MarkedUpTo(c, swapped + ignored, j, p) ensures j >= i { }
  }

  lemma {:induction false} RedundantIsSeen(c: seq<Field>, r: seq<Field>, swapped: set<Field>, ignored: set<Field>,
                                           p: nat, q: nat) returns (i: nat)
    requires Distinct(r) && swapped !! ignored && Agree(c, r, swapped, ignored) && Marked(c, r, swapped, p, q)
    requires Redundant(c, r, swapped, ignored, c[p]) && !Hidden(c, r, swapped, ignored, p, q)
    ensures NeedlessAt(c, r, swapped, i, p, q)
  {
    var d := swapped + ignored;
    RedundantExactly(c, r, swapped, ignored, p, q);
    i := LastKept(c[..p], d);
    if q > 0 { KeptThrough(r, swapped, q); }
    forall j | i <= j < p ensures c[j] in swapped && c[j] !in r[..q] {
      assert c[..p][j] == c[j];
      assert MarkedUpTo(c, d, j, p) by { forall k | j <= k < p ensures c[k] in d { assert c[..p][k] == c[k]; } }
    }
  }

  /** What the tool objects to are exactly the redundant marks that are not hidden: no mark that is needed
      is ever rejected. */
  lemma {:induction false} NeedlessExactly(c: seq<Field>, r: seq<Field>, swapped: set<Field>, ignored: set<Field>,
                                           p: nat, q: nat)
    requires Distinct(r) && swapped !! ignored && Agree(c, r, swapped, ignored) && Marked(c, r, swapped, p, q)
    ensures (exists i: nat :: NeedlessAt(c, r, swapped, i, p, q)) <==>
            Redundant(c, r, swapped, ignored, c[p]) && !Hidden(c, r, swapped, ignored, p, q)
  {
    forall i: nat | NeedlessAt(c, r, swapped, i, p, q)
      ensures Redundant(c, r, swapped, ignored, c[p]) && !Hidden(c, r, swapped, ignored, p, q)
    {
      NeedlessIsRedundant(c, r, swapped, ignored, i, p, q);
      NeedlessIsSeen(c, r, swapped, ignored, i, p, q);
    }
    if Redundant(c, r, swapped, ignored, c[p]) && !Hidden(c, r, swapped, ignored, p, q) {
      var i := RedundantIsSeen(c, r, swapped, ignored, p, q);
    }
  }

  ghost predicate AllHidden(c: seq<Field>, r: seq<Field>, swapped: set<Field>, ignored: set<Field>) {
    forall p: nat, q: nat :: Marked(c, r, swapped, p, q) && Redundant(c, r, swapped, ignored, c[p]) ==>
      Hidden(c, r, swapped, ignored, p, q)
  }

  /** The documented rule and the tool: it accepts exactly when the lists agree up to the marks and every
      mark that could be left out is hidden from it. */
  lemma {:induction false} AcceptsExactly(c: seq<Field>, r: seq<Field>, swapped: set<Field>, ignored: set<Field>)
    requires Distinct(r) && swapped !! ignored
    ensures Decide(c, r, swapped, ignored) == Accepted <==>
            Agree(c, r, swapped, ignored) && AllHidden(c, r, swapped, ignored)
  {
    DecideExact(c, r, swapped, ignored);
    if Agree(c, r, swapped, ignored) {
      forall p: nat, q: nat | Marked(c, r, swapped, p, q) ensures
        (exists i: nat :: NeedlessAt(c, r, swapped, i, p, q)) <==>
        Redundant(c, r, swapped, ignored, c[p]) && !Hidden(c, r, swapped, ignored, p, q)
      {
        NeedlessExactly(c, r, swapped, ignored, p, q);
      }
      NeedlessSomewhere(c, r, swapped);
    }
  }

  lemma {:induction false} NeedlessSomewhere(c: seq<Field>, r: seq<Field>, swapped: set<Field>)
    ensures Needless(c, r, swapped) <==>
            exists p: nat, q: nat :: Marked(c, r, swapped, p, q) && exists i: nat :: NeedlessAt(c, r, swapped, i, p, q)
  {
    if Needless(c, r, swapped) {
      var i: nat, p: nat, q: nat :| NeedlessAt(c, r, swapped, i, p, q);
      assert Marked(c, r, swapped, p, q);
    }
  }

  /** The rule fails exactly where the lists agree, and some mark that could be left out is hidden with all the
      others of its kind. */
  lemma {:induction false} RuleFailsExactly(c: seq<Field>, r: seq<Field>, swapped: set<Field>, ignored: set<Field>)
    requires Distinct(r) && swapped !! ignored
    ensures Decide(c, r, swapped, ignored) == Accepted && (exists x :: Redundant(c, r, swapped, ignored, x)) <==>
            && Agree(c, r, swapped, ignored) && AllHidden(c, r, swapped, ignored)
            && exists p: nat, q: nat ::
                 Marked(c, r, swapped, p, q) && Redundant(c, r, swapped, ignored, c[p]) &&
                 Hidden(c, r, swapped, ignored, p, q)
  {
    AcceptsExactly(c, r, swapped, ignored);
    if Agree(c, r, swapped, ignored) {
      forall x | Redundant(c, r, swapped, ignored, x)
        ensures exists p: nat, q: nat :: Marked(c, r, swapped, p, q) && Redundant(c, r, swapped, ignored, c[p])
      {
        var p: nat :| p < |c| && c[p] == x;
        var q: nat :| q < |r| && r[q] == x;
        assert Marked(c, r, swapped, p, q);
      }
    }
  }

  /** It fails also with nothing ignored: a swapped field that the macro has listed before hides the next. */
  lemma {:induction false} HiddenBehindSwapped(a: Field, s: Field, x: Field)
    requires a != s && s != x && a != x
    ensures Decide([a, s, x], [s, a, x], {s, x}, {}) == Accepted
    ensures Decide([a, s, x], [s, a, x], {s}, {}) == Accepted
  {
    var c, r, none := [a, s, x], [s, a, x], var e: set<Field> := {}; e;
    DecideExact(c, r, {s, x}, none);
    DecideExact(c, r, {s}, none);
    assert {s, x} + none == {s, x} && {s} + none == {s};
    KeepsInThree(a, s, x, {s, x});
    KeepsInThree(a, s, x, {s});
    KeepsInThree(s, a, x, {s, x});
    KeepsInThree(s, a, x, {s});
    assert s in r[..2] by { assert r[..2][0] == s; }
    forall i: nat, p: nat, q: nat | NeedlessAt(c, r, {s, x}, i, p, q) ensures false { }
    forall i: nat, p: nat, q: nat | NeedlessAt(c, r, {s}, i, p, q) ensures false { }
  }

  lemma {:induction false} KeepsInThree(x: Field, y: Field, z: Field, d: set<Field>)
    ensures Without([x, y, z], d) ==
            (if x in d then [] else [x]) + ((if y in d then [] else [y]) + (if z in d then [] else [z]))
  {
    assert [x, y, z][1..] == [y, z] && [y, z][1..] == [z] && [z][1..] == [];
    assert Without([z], d) == if z in d then [] else [z];
    assert Without([y, z], d) == (if y in d then [] else [y]) + Without([z], d);
  }
}
