/** The reason a reflection is rejected for is true of its fields and marks. */
module MatchingReasons {
  import opened Sequences
  import opened Matching

  /** What each assertion says about the class, the macro and the marks. */
  ghost predicate IsTrue(reason: Reason, c: seq<Field>, r: seq<Field>, swapped: set<Field>, ignored: set<Field>) {
    match reason
    case SwappedNotReflected => exists x :: x in swapped && x in c && x !in r
    case SwappedInPlace => Needless(c, r, swapped)
    case SkippedButReflected => exists x :: x in ignored && x in c && x in r
    case IgnoredInPlace => exists p: nat, q: nat :: InPlace(c, r, swapped, ignored, p, q)
    case FieldMismatch => !Distinct(c) || Without(c, swapped + ignored) != Without(r, swapped)
    case ErroneousIgnores => exists x :: x in ignored && x !in c
    case UnusedReflected =>
      || (exists x :: x in swapped && x in r && x !in c)
      || Without(c, swapped + ignored) != Without(r, swapped)
    case ErroneousSwaps => exists x :: x in swapped && x !in c && x !in r
    case BackNeverProvided => false
    case ForwardNotInClass => exists x :: x in swapped && x in r && x !in c
  }

  /** The ignored field c[p] is reflected, with the same unmarked fields before it. */
  ghost predicate InPlace(c: seq<Field>, r: seq<Field>, swapped: set<Field>, ignored: set<Field>, p: nat, q: nat) {
    && p < |c| && q < |r| && c[p] == r[q] && c[p] in ignored
    && Without(c[..p], swapped + ignored) == Without(r[..q], swapped)
  }

  // ---- What the loop knows once it has passed `pc` of the class and `pr` of the macro ----

  ghost predicate Passed(pc: seq<Field>, pr: seq<Field>, swapped: set<Field>, ignored: set<Field>, m: Marks) {
    && m.swapped == (set x | x in swapped && x !in pc && x !in pr)
    && m.back == (set x | x in swapped && x in pc && x !in pr)
    && m.fwd == (set x | x in swapped && x in pr && x !in pc)
    && m.ignored == (set x | x in ignored && x !in pc)
    && m.skipped == (set x | x in ignored && x in pc)
    && Without(pc, swapped + ignored) == Without(pr, swapped)
  }

  /** Swapped fields that the macro has not listed end `pc`, behind the last field matched. */
  ghost predicate Fresh(pc: seq<Field>, pr: seq<Field>, swapped: set<Field>) {
    exists i: nat :: FreshFrom(pc, pr, swapped, i)
  }

  ghost predicate FreshFrom(pc: seq<Field>, pr: seq<Field>, swapped: set<Field>, i: nat) {
    && i <= |pc|
    && (if i == 0 || pr == [] then i == |pr| else pc[i-1] == pr[|pr| - 1] && pc[i-1] !in swapped)
    && (forall j :: i <= j < |pc| ==> pc[j] in swapped && pc[j] !in pr)
  }

  /** Both cursors are at swapped fields only when that is so. */
  ghost predicate Poised(pc: seq<Field>, pr: seq<Field>, c: seq<Field>, r: seq<Field>, swapped: set<Field>, m: Marks) {
    c != [] && r != [] && c[0] in m.swapped && r[0] in m.swapped ==> Fresh(pc, pr, swapped)
  }

  lemma {:induction false} WithoutLast(s: seq<Field>, x: Field, d: set<Field>)
    ensures Without(s + [x], d) == Without(s, d) + if x in d then [] else [x]
    decreases |s|
  {
    if s == [] {
      assert s + [x] == [x] && [x][1..] == [];
    } else {
      assert (s + [x])[1..] == s[1..] + [x];
      WithoutLast(s[1..], x, d);
    }
  }

  lemma {:induction false} WithoutTwo(s: seq<Field>, t: seq<Field>, d: set<Field>)
    ensures Without(s + t, d) == Without(s, d) + Without(t, d)
    decreases |s|
  {
    if s == [] {
      assert s + t == t;
    } else {
      assert (s + t)[1..] == s[1..] + t;
      WithoutTwo(s[1..], t, d);
    }
  }

  lemma {:induction false} FreshGrows(pc: seq<Field>, pr: seq<Field>, swapped: set<Field>, a: Field)
    requires Fresh(pc, pr, swapped) && a in swapped && a !in pr
    ensures Fresh(pc + [a], pr, swapped)
  {
    var i: nat :| FreshFrom(pc, pr, swapped, i);
    assert FreshFrom(pc + [a], pr, swapped, i);
  }

  lemma {:induction false} FreshMatched(pc: seq<Field>, pr: seq<Field>, swapped: set<Field>, a: Field)
    requires a !in swapped
    ensures Fresh(pc + [a], pr + [a], swapped)
  {
    assert FreshFrom(pc + [a], pr + [a], swapped, |pc| + 1);
  }

  lemma {:induction false} FreshIsNeedless(pc: seq<Field>, pr: seq<Field>, c: seq<Field>, r: seq<Field>,
                                           swapped: set<Field>)
    requires Fresh(pc, pr, swapped) && c != [] && r != [] && c[0] == r[0] && c[0] in swapped && c[0] !in pr
    ensures Needless(pc + c, pr + r, swapped)
  {
    var i: nat :| FreshFrom(pc, pr, swapped, i);
    var all, q := pc + c, |pr|;
    assert (pr + r)[..q] == pr;
    forall j | i <= j <= |pc| ensures all[j] in swapped && all[j] !in (pr + r)[..q] { }
    assert NeedlessAt(all, pr + r, swapped, i, |pc|, q);
  }

  // ---- One iteration ----

  lemma {:induction false} ClassSwapped(pc: seq<Field>, pr: seq<Field>, swapped: set<Field>, ignored: set<Field>,
                                        m: Marks, a: Field)
    requires Passed(pc, pr, swapped, ignored, m) && swapped !! ignored && a in m.swapped
    ensures Passed(pc + [a], pr, swapped, ignored, m.(swapped := m.swapped - {a}, back := m.back + {a}))
  {
    WithoutLast(pc, a, swapped + ignored);
  }

  lemma {:induction false} ClassIgnored(pc: seq<Field>, pr: seq<Field>, swapped: set<Field>, ignored: set<Field>,
                                        m: Marks, a: Field)
    requires Passed(pc, pr, swapped, ignored, m) && swapped !! ignored && a in m.ignored
    ensures Passed(pc + [a], pr, swapped, ignored, m.(ignored := m.ignored - {a}, skipped := m.skipped + {a}))
  {
    WithoutLast(pc, a, swapped + ignored);
  }

  lemma {:induction false} ClassForward(pc: seq<Field>, pr: seq<Field>, swapped: set<Field>, ignored: set<Field>,
                                        m: Marks, a: Field)
    requires Passed(pc, pr, swapped, ignored, m) && swapped !! ignored && a in m.fwd
    ensures Passed(pc + [a], pr, swapped, ignored, m.(fwd := m.fwd - {a}))
  {
    WithoutLast(pc, a, swapped + ignored);
  }

  lemma {:induction false} MacroSwapped(pc: seq<Field>, pr: seq<Field>, swapped: set<Field>, ignored: set<Field>,
                                        m: Marks, b: Field)
    requires Passed(pc, pr, swapped, ignored, m) && b in m.swapped
    ensures Passed(pc, pr + [b], swapped, ignored, m.(swapped := m.swapped - {b}, fwd := m.fwd + {b}))
  {
    WithoutLast(pr, b, swapped);
  }

  lemma {:induction false} MacroBack(pc: seq<Field>, pr: seq<Field>, swapped: set<Field>, ignored: set<Field>,
                                     m: Marks, b: Field)
    requires Passed(pc, pr, swapped, ignored, m) && b in m.back
    ensures Passed(pc, pr + [b], swapped, ignored, m.(back := m.back - {b}))
  {
    WithoutLast(pr, b, swapped);
  }

  lemma {:induction false} BothMatched(pc: seq<Field>, pr: seq<Field>, swapped: set<Field>, ignored: set<Field>,
                                       m: Marks, a: Field)
    requires Passed(pc, pr, swapped, ignored, m) && a !in swapped && a !in ignored
    ensures Passed(pc + [a], pr + [a], swapped, ignored, m)
  {
    WithoutLast(pc, a, swapped + ignored);
    WithoutLast(pr, a, swapped);
  }

  /** The next class field and the next macro field are unmarked and differ, or the macro is at its end. */
  lemma {:induction false} MismatchIsTrue(pc: seq<Field>, pr: seq<Field>, c: seq<Field>, r: seq<Field>,
                                          swapped: set<Field>, ignored: set<Field>, m: Marks)
    requires Passed(pc, pr, swapped, ignored, m) && Distinct(pr + r) && c != [] && Distinct(pc + c)
    requires c[0] !in m.swapped && c[0] !in m.ignored && c[0] !in m.fwd
    requires r == [] || (r[0] != c[0] && r[0] !in m.swapped && r[0] !in m.back)
    ensures Without(pc + c, swapped + ignored) != Without(pr + r, swapped)
  {
    NotPassed(pc, c);
    WithoutTwo(pc, c, swapped + ignored);
    WithoutTwo(pr, r, swapped);
    var done := |Without(pc, swapped + ignored)|;
    assert Without(pc + c, swapped + ignored)[done] == c[0];
    if r != [] {
      NotPassed(pr, r);
      assert Without(pr + r, swapped)[done] == r[0];
    }
  }

  lemma {:induction false} NotPassed(s: seq<Field>, t: seq<Field>)
    requires t != [] && Distinct(s + t)
    ensures t[0] !in s
  {
    var all := s + t;
    forall i | 0 <= i < |s| ensures s[i] != t[0] { assert all[i] != all[|s|]; }
  }

  /** The stop of an iteration is for a true reason. */
  lemma {:induction false} StopIsTrue(pc: seq<Field>, pr: seq<Field>, c: seq<Field>, r: seq<Field>,
                                      swapped: set<Field>, ignored: set<Field>, m: Marks)
    requires Passed(pc, pr, swapped, ignored, m) && Poised(pc, pr, c, r, swapped, m)
    requires Distinct(pr + r) && c != [] && Step(c, r, pr + r, m).Stop?
    ensures IsTrue(Step(c, r, pr + r, m).reason, pc + c, pr + r, swapped, ignored)
  {
    var a := c[0];
    assert (pc + c)[|pc|] == a && a in pc + c;
    assert r != [] ==> (pr + r)[|pr|] == r[0] && r[0] in pr + r;
    match Step(c, r, pr + r, m).reason
    case SwappedInPlace => FreshIsNeedless(pc, pr, c, r, swapped);
    case SkippedButReflected => assert r[0] in pc + c;
    case IgnoredInPlace =>
      assert (pc + c)[..|pc|] == pc && (pr + r)[..|pr|] == pr;
      assert InPlace(pc + c, pr + r, swapped, ignored, |pc|, |pr|);
    case FieldMismatch => if Distinct(pc + c) { MismatchIsTrue(pc, pr, c, r, swapped, ignored, m); }
    case _ =>
  }

  /** The cursors after an iteration: what has been passed, and what is known of it. */
  lemma {:induction false} NextIsKnown(pc: seq<Field>, pr: seq<Field>, c: seq<Field>, r: seq<Field>,
                                       swapped: set<Field>, ignored: set<Field>, m: Marks)
      returns (pc': seq<Field>, pr': seq<Field>)
    requires Passed(pc, pr, swapped, ignored, m) && Poised(pc, pr, c, r, swapped, m)
    requires swapped !! ignored && Distinct(pr + r) && c != [] && Step(c, r, pr + r, m).Next?
    requires forall x <- m.back :: x in pr + r
    ensures forall x <- Step(c, r, pr + r, m).m.back :: x in pr + r
    ensures var s := Step(c, r, pr + r, m);
            && pc' + s.c == pc + c && pr' + s.r == pr + r
            && Passed(pc', pr', swapped, ignored, s.m) && Poised(pc', pr', s.c, s.r, swapped, s.m)
  {
    var a := c[0];
    pc', pr' := pc, pr;
    Shift(pc, c);
    if r != [] { Shift(pr, r); }
    if a in m.swapped || (!(r != [] && r[0] in m.swapped) && a in m.ignored) {
      pc' := pc + [a];
      ClassMarked(pc, pr, c, r, swapped, ignored, m);
    } else if r != [] && (r[0] in m.swapped || r[0] in m.back) {
      pr' := pr + [r[0]];
      MacroMarked(pc, pr, c, r, swapped, ignored, m);
    } else if a in m.fwd {
      pc' := pc + [a];
      ClassForward(pc, pr, swapped, ignored, m, a);
    } else {
      NotPassed(pr, r);
      BothMatched(pc, pr, swapped, ignored, m, a);
      FreshMatched(pc, pr, swapped, a);
      pc', pr' := pc + [a], pr + [a];
    }
  }

  lemma {:induction false} Shift(s: seq<Field>, t: seq<Field>)
    requires t != []
    ensures s + t == s + [t[0]] + t[1..]
  {
  }

  /** A class field with a mark that is still open. */
  lemma {:induction false} ClassMarked(pc: seq<Field>, pr: seq<Field>, c: seq<Field>, r: seq<Field>,
                                       swapped: set<Field>, ignored: set<Field>, m: Marks)
    requires Passed(pc, pr, swapped, ignored, m) && Poised(pc, pr, c, r, swapped, m)
    requires swapped !! ignored && c != [] && Step(c, r, pr + r, m).Next?
    requires c[0] in m.swapped || (!(r != [] && r[0] in m.swapped) && c[0] in m.ignored)
    ensures var s := Step(c, r, pr + r, m);
            && Passed(pc + [c[0]], pr, swapped, ignored, s.m) && Poised(pc + [c[0]], pr, s.c, s.r, swapped, s.m)
  {
    var a := c[0];
    if a in m.swapped {
      ClassSwapped(pc, pr, swapped, ignored, m, a);
      if r != [] && r[0] in m.swapped && c[1..] != [] && c[1] in m.swapped { FreshGrows(pc, pr, swapped, a); }
    } else {
      ClassIgnored(pc, pr, swapped, ignored, m, a);
    }
  }

  /** A macro field with one. */
  lemma {:induction false} MacroMarked(pc: seq<Field>, pr: seq<Field>, c: seq<Field>, r: seq<Field>,
                                       swapped: set<Field>, ignored: set<Field>, m: Marks)
    requires Passed(pc, pr, swapped, ignored, m) && c != [] && r != [] && Step(c, r, pr + r, m).Next?
    requires c[0] !in m.swapped && (r[0] in m.swapped || (c[0] !in m.ignored && r[0] in m.back))
    ensures var s := Step(c, r, pr + r, m);
            && Passed(pc, pr + [r[0]], swapped, ignored, s.m) && Poised(pc, pr + [r[0]], s.c, s.r, swapped, s.m)
  {
    if r[0] in m.swapped {
      MacroSwapped(pc, pr, swapped, ignored, m, r[0]);
    } else {
      MacroBack(pc, pr, swapped, ignored, m, r[0]);
    }
  }

  // ---- After the loop, and the whole run ----

  lemma {:induction false} FinishIsTrue(c: seq<Field>, pr: seq<Field>, r: seq<Field>, swapped: set<Field>,
                                        ignored: set<Field>, m: Marks)
    requires Passed(c, pr, swapped, ignored, m) && Distinct(pr + r) && Finish(r, m).verdict.Rejected?
    requires forall x <- m.back :: x in pr + r
    ensures IsTrue(Finish(r, m).verdict.reason, c, pr + r, swapped, ignored)
  {
    RestDistinct(pr, r);
    DrainExact(r, m.back);
    assert Drain(r, m.back).0 == {};
    match Finish(r, m).verdict.reason
    case ErroneousIgnores => var x :| x in m.ignored;
    case UnusedReflected => UnusedIsTrue(c, pr, r, swapped, ignored, m);
    case ErroneousSwaps =>
      var x :| x in m.swapped;
      assert x !in m.back && x !in pr + r;
    case BackNeverProvided =>
    case ForwardNotInClass =>
      var x :| x in m.fwd;
      assert x in pr + r;
    case _ =>
  }

  lemma {:induction false} RestDistinct(pr: seq<Field>, r: seq<Field>)
    requires Distinct(pr + r)
    ensures Distinct(r) && forall x <- r :: x !in pr
  {
    var all := pr + r;
    forall i, j | 0 <= i < j < |r| ensures r[i] != r[j] { assert all[|pr| + i] != all[|pr| + j]; }
    forall i, j | 0 <= i < |pr| && 0 <= j < |r| ensures pr[i] != r[j] { assert all[i] != all[|pr| + j]; }
  }

  lemma {:induction false} UnusedIsTrue(c: seq<Field>, pr: seq<Field>, r: seq<Field>, swapped: set<Field>,
                                        ignored: set<Field>, m: Marks)
    requires Passed(c, pr, swapped, ignored, m) && Distinct(pr + r) && exists x :: x in r && x !in m.back
    ensures IsTrue(UnusedReflected, c, pr + r, swapped, ignored)
  {
    RestDistinct(pr, r);
    var x :| x in r && x !in m.back;
    assert x in pr + r;
    if x !in swapped {
      WithoutTwo(pr, r, swapped);
      WithoutHolds(r, x, swapped);
    }
  }

  lemma {:induction false} WithoutHolds(s: seq<Field>, x: Field, d: set<Field>)
    requires x in s && x !in d
    ensures Without(s, d) != []
    decreases |s|
  {
    if s[0] in d { WithoutHolds(s[1..], x, d); }
  }

  /** The class `all` and the macro `reflected` have been passed up to `c` and `r`. */
  ghost predicate Known(all: seq<Field>, reflected: seq<Field>, swapped: set<Field>, ignored: set<Field>,
                        pc: seq<Field>, pr: seq<Field>, c: seq<Field>, r: seq<Field>, m: Marks)
  {
    && all == pc + c && reflected == pr + r && Passed(pc, pr, swapped, ignored, m)
    && Poised(pc, pr, c, r, swapped, m) && forall x <- m.back :: x in reflected
  }

  lemma {:induction false} StepIsKnown(all: seq<Field>, reflected: seq<Field>, swapped: set<Field>, ignored: set<Field>,
                                       pc: seq<Field>, pr: seq<Field>, c: seq<Field>, r: seq<Field>, m: Marks)
      returns (pc': seq<Field>, pr': seq<Field>)
    requires swapped !! ignored && Distinct(reflected) && Known(all, reflected, swapped, ignored, pc, pr, c, r, m)
    requires c != []
    ensures match Step(c, r, reflected, m)
            case Stop(reason, _) => IsTrue(reason, all, reflected, swapped, ignored)
            case Next(c', r', m') => Known(all, reflected, swapped, ignored, pc', pr', c', r', m')
  {
    pc', pr' := pc, pr;
    if Step(c, r, reflected, m).Stop? {
      StopIsTrue(pc, pr, c, r, swapped, ignored, m);
    } else {
      pc', pr' := NextIsKnown(pc, pr, c, r, swapped, ignored, m);
    }
  }

  lemma {:induction false} RunIsTrue(all: seq<Field>, reflected: seq<Field>, swapped: set<Field>, ignored: set<Field>,
                                     pc: seq<Field>, pr: seq<Field>, c: seq<Field>, r: seq<Field>, m: Marks)
    requires swapped !! ignored && Distinct(reflected) && Known(all, reflected, swapped, ignored, pc, pr, c, r, m)
    requires Run(c, r, reflected, m).verdict.Rejected?
    ensures IsTrue(Run(c, r, reflected, m).verdict.reason, all, reflected, swapped, ignored)
    decreases |c| + |r|
  {
    if c == [] {
      assert pc + c == pc;
      FinishIsTrue(pc, pr, r, swapped, ignored, m);
    } else {
      var s := Step(c, r, reflected, m);
      var pc', pr' := StepIsKnown(all, reflected, swapped, ignored, pc, pr, c, r, m);
      if s.Next? { RunIsTrue(all, reflected, swapped, ignored, pc', pr', s.c, s.r, s.m); }
    }
  }

  /** Whatever is rejected, the reason given is true of it; one assertion can never fail. */
  lemma {:induction false} ReasonIsTrue(c: seq<Field>, r: seq<Field>, swapped: set<Field>, ignored: set<Field>)
    requires Distinct(r) && swapped !! ignored && Decide(c, r, swapped, ignored).Rejected?
    ensures IsTrue(Decide(c, r, swapped, ignored).reason, c, r, swapped, ignored)
    ensures Decide(c, r, swapped, ignored).reason != BackNeverProvided
  {
    var none: seq<Field> := [];
    assert none + c == c && none + r == r && FreshFrom(none, none, swapped, 0);
    RunIsTrue(c, r, swapped, ignored, none, none, c, r, Start(swapped, ignored));
  }
}
