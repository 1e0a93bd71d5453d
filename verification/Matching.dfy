/** The matching of a class's fields against its FC_REFLECT fields (the loop of validate_file).

    The source keeps its swap and ignore marks in Python lists without repetition, and only ever asks
    whether a name is in a list, removes it, appends one, or compares the length with zero.  The
    machine here runs on sets; module Validation proves that the list code refines it. */
module Matching {
  import opened Sequences

  /** A field name; only compared for equality. */
  datatype Field = Field(text: string)

  /** One constructor per assertion of the source, in source order. */
  datatype Reason =
    | SwappedNotReflected
    | SwappedInPlace
    | SkippedButReflected
    | IgnoredInPlace
    | FieldMismatch
    | ErroneousIgnores
    | UnusedReflected
    | ErroneousSwaps
    | BackNeverProvided
    | ForwardNotInClass

  datatype Verdict = Accepted | Rejected(reason: Reason)

  /** The marks still open: the annotations not yet met (`swapped`, `ignored`), swapped names met
      first in the class (`back`) or first in the macro (`fwd`), and the names skipped so far. */
  datatype Marks = Marks(
    swapped: set<Field>,
    ignored: set<Field>,
    back: set<Field>,
    fwd: set<Field>,
    skipped: set<Field>)

  function Start(swapped: set<Field>, ignored: set<Field>): Marks {
    Marks(swapped, ignored, {}, {}, {})
  }

  datatype Move =
    | Next(c: seq<Field>, r: seq<Field>, m: Marks)
    | Stop(reason: Reason, left: Marks)

  datatype Outcome = Outcome(verdict: Verdict, left: Marks)

  /** One iteration of the main loop: `c` and `r` are what the two cursors have not passed,
      `reflected` is the whole macro. */
  function Step(c: seq<Field>, r: seq<Field>, reflected: seq<Field>, m: Marks): Move
    requires c != []
  {
    var a := c[0];
    if a in m.swapped then
      var m' := m.(swapped := m.swapped - {a}, back := m.back + {a});
      if a !in reflected then Stop(SwappedNotReflected, m')
      else if r != [] && r[0] == a then Stop(SwappedInPlace, m')
      else Next(c[1..], r, m')
    else if r != [] && r[0] in m.swapped then
      Next(c, r[1..], m.(swapped := m.swapped - {r[0]}, fwd := m.fwd + {r[0]}))
    else if r != [] && r[0] in m.skipped then
      Stop(SkippedButReflected, m)
    else if a in m.ignored then
      var m' := m.(ignored := m.ignored - {a}, skipped := m.skipped + {a});
      if r != [] && r[0] == a then Stop(IgnoredInPlace, m') else Next(c[1..], r, m')
    else if r != [] && r[0] in m.back then
      Next(c, r[1..], m.(back := m.back - {r[0]}))
    else if a in m.fwd then
      Next(c[1..], r, m.(fwd := m.fwd - {a}))
    else if r != [] && r[0] == a then
      Next(c[1..], r[1..], m)
    else
      Stop(FieldMismatch, m)
  }

  /** The loop over what is left of the macro once the class is exhausted. */
  function Drain(r: seq<Field>, back: set<Field>): (set<Field>, seq<Field>) {
    if r == [] then (back, [])
    else if r[0] in back then Drain(r[1..], back - {r[0]})
    else
      var (b, unused) := Drain(r[1..], back);
      (b, [r[0]] + unused)
  }

  function Finish(r: seq<Field>, m: Marks): Outcome {
    if m.ignored != {} then Outcome(Rejected(ErroneousIgnores), m)
    else
      var (back, unused) := Drain(r, m.back);
      var m' := m.(back := back);
      var v :=
        if unused != [] then Rejected(UnusedReflected)
        else if m.swapped != {} then Rejected(ErroneousSwaps)
        else if back != {} then Rejected(BackNeverProvided)
        else if m.fwd != {} then Rejected(ForwardNotInClass)
        else Accepted;
      Outcome(v, m')
  }

  function Run(c: seq<Field>, r: seq<Field>, reflected: seq<Field>, m: Marks): Outcome
    decreases |c| + |r|
  {
    if c == [] then Finish(r, m)
    else match Step(c, r, reflected, m)
      case Stop(reason, left) => Outcome(Rejected(reason), left)
      case Next(c', r', m') => Run(c', r', reflected, m')
  }

  /** The verdict on class fields `c` and macro fields `r` under the given annotations. */
  function Decide(c: seq<Field>, r: seq<Field>, swapped: set<Field>, ignored: set<Field>): Verdict {
    Run(c, r, r, Start(swapped, ignored)).verdict
  }

  // ---- What acceptance means, stated without the machine ----

  /** `s` with every name in `drop` deleted. */
  function Without(s: seq<Field>, drop: set<Field>): seq<Field> {
    if s == [] then []
    else (if s[0] in drop then [] else [s[0]]) + Without(s[1..], drop)
  }

  /** The two lists agree up to the annotations: an ignored field is in the class only, a swapped
      field is in both, and what remains is the same sequence. */
  ghost predicate Agree(c: seq<Field>, r: seq<Field>, swapped: set<Field>, ignored: set<Field>) {
    && Distinct(c)
    && (forall x <- swapped :: x in c && x in r)
    && (forall x <- ignored :: x in c && x !in r)
    && Without(c, swapped + ignored) == Without(r, swapped)
  }

  /** A swap mark the tool calls needless: the swapped field r[q] directly follows an unswapped
      field (or the start of the macro), and the class has it after the same field with nothing
      between but swapped fields that the macro has not listed before. */
  ghost predicate NeedlessAt(c: seq<Field>, r: seq<Field>, swapped: set<Field>, i: nat, p: nat, q: nat) {
    && i <= p < |c| && q < |r|
    && c[p] == r[q]
    && (if i == 0 || q == 0 then i == q else c[i-1] == r[q-1] && c[i-1] !in swapped)
    && (forall j :: i <= j <= p ==> c[j] in swapped && c[j] !in r[..q])
  }

  ghost predicate Needless(c: seq<Field>, r: seq<Field>, swapped: set<Field>) {
    exists i: nat, p: nat, q: nat :: NeedlessAt(c, r, swapped, i, p, q)
  }

  // ---- The same at an arbitrary point of a run ----

  /** What every reachable state satisfies once annotations and macro are free of repetition. */
  ghost predicate Inv(r: seq<Field>, reflected: seq<Field>, m: Marks) {
    && Distinct(r)
    && (forall x <- r :: x in reflected)
    && (forall x <- m.swapped :: x in reflected ==> x in r)
    && (forall x <- m.fwd :: x !in r)
    && m.swapped !! m.ignored !! m.back !! m.fwd !! m.skipped
  }

  ghost predicate Good(c: seq<Field>, r: seq<Field>, m: Marks) {
    && Distinct(c)
    && (forall x <- m.swapped :: x in c && x in r)
    && (forall x <- m.ignored :: x in c && x !in r)
    && (forall x <- m.back :: x in r && x !in c)
    && (forall x <- m.fwd :: x in c && x !in r)
    && (forall x <- m.skipped :: x !in c && x !in r)
    && Without(c, m.swapped + m.ignored + m.fwd) == Without(r, m.swapped + m.back)
  }

  lemma {:induction false} ConsFacts(s: seq<Field>)
    requires s != []
    ensures forall x :: x in s <==> x == s[0] || x in s[1..]
    ensures Distinct(s) <==> s[0] !in s[1..] && Distinct(s[1..])
  {
    assert s == [s[0]] + s[1..];
    if s[0] !in s[1..] && Distinct(s[1..]) {
      forall i, j | 0 <= i < j < |s| ensures s[i] != s[j] {
        assert s[j] == s[1..][j-1];
        if i > 0 { assert s[i] == s[1..][i-1]; }
      }
    }
    if Distinct(s) {
      forall i, j | 0 <= i < j < |s[1..]| ensures s[1..][i] != s[1..][j] {
        assert s[1..][i] == s[i+1] && s[1..][j] == s[j+1];
      }
    }
  }

  /** Deletion only looks at the names that occur. */
  lemma {:induction false} WithoutAgree(s: seq<Field>, d: set<Field>, e: set<Field>)
    requires forall x <- s :: x in d <==> x in e
    ensures Without(s, d) == Without(s, e)
  {
    if s != [] { WithoutAgree(s[1..], d, e); }
  }

  lemma {:induction false} WithoutMember(s: seq<Field>, d: set<Field>, x: Field)
    ensures x in Without(s, d) <==> x in s && x !in d
  {
    if s != [] {
      WithoutMember(s[1..], d, x);
      ConsFacts(s);
    }
  }

  // ---- Every step keeps the invariant and decides nothing ----

  lemma {:induction false} StepKeepsInv(c: seq<Field>, r: seq<Field>, reflected: seq<Field>, m: Marks)
    requires c != [] && Inv(r, reflected, m)
    requires Step(c, r, reflected, m).Next?
    ensures Inv(Step(c, r, reflected, m).r, reflected, Step(c, r, reflected, m).m)
  {
    ConsFacts(c);
    if r != [] { ConsFacts(r); }
  }

  /** Every swap mark is open, waiting on one side, or settled: a step settles at most the name a cursor
      passes, and moves a cursor. */
  lemma {:induction false} StepConserves(c: seq<Field>, r: seq<Field>, reflected: seq<Field>, m: Marks)
    requires c != [] && Inv(r, reflected, m)
    requires Step(c, r, reflected, m).Next?
    ensures var s := Step(c, r, reflected, m);
            var settled := (m.swapped + m.back + m.fwd) - (s.m.swapped + s.m.back + s.m.fwd);
            && s.m.swapped + s.m.back + s.m.fwd <= m.swapped + m.back + m.fwd
            && s.m.ignored + s.m.skipped == m.ignored + m.skipped
            && |s.c| + |s.r| < |c| + |r|
            && (forall x <- settled :: (x == c[0] && x in m.fwd && s.c == c[1..]) ||
                                       (r != [] && x == r[0] && x in m.back && s.r == r[1..]))
  {
  }

  lemma {:induction false} GoodBackMark(c: seq<Field>, r: seq<Field>, m: Marks, m': Marks, a: Field)
    requires c != [] && c[0] == a && a in m.swapped && a in r
    requires m.swapped !! m.ignored !! m.back !! m.fwd !! m.skipped
    requires m' == m.(swapped := m.swapped - {a}, back := m.back + {a})
    ensures Good(c, r, m) <==> Good(c[1..], r, m')
  {
    ConsFacts(c);
    if a !in c[1..] {
      WithoutAgree(c[1..], m.swapped + m.ignored + m.fwd, m'.swapped + m'.ignored + m'.fwd);
      WithoutAgree(r, m.swapped + m.back, m'.swapped + m'.back);
    }
  }

  lemma {:induction false} GoodForwardMark(c: seq<Field>, r: seq<Field>, m: Marks, m': Marks, b: Field)
    requires r != [] && r[0] == b && b in m.swapped && Distinct(r)
    requires m.swapped !! m.ignored !! m.back !! m.fwd !! m.skipped
    requires m' == m.(swapped := m.swapped - {b}, fwd := m.fwd + {b})
    ensures Good(c, r, m) <==> Good(c, r[1..], m')
  {
    ConsFacts(r);
    WithoutAgree(c, m.swapped + m.ignored + m.fwd, m'.swapped + m'.ignored + m'.fwd);
    WithoutAgree(r[1..], m.swapped + m.back, m'.swapped + m'.back);
  }

  lemma {:induction false} GoodIgnore(c: seq<Field>, r: seq<Field>, m: Marks, m': Marks, a: Field)
    requires c != [] && c[0] == a && a in m.ignored
    requires m.swapped !! m.ignored !! m.back !! m.fwd !! m.skipped
    requires m' == m.(ignored := m.ignored - {a}, skipped := m.skipped + {a})
    ensures Good(c, r, m) <==> Good(c[1..], r, m')
  {
    ConsFacts(c);
    if a !in c[1..] {
      WithoutAgree(c[1..], m.swapped + m.ignored + m.fwd, m'.swapped + m'.ignored + m'.fwd);
    }
  }

  lemma {:induction false} GoodBackFound(c: seq<Field>, r: seq<Field>, m: Marks, m': Marks, b: Field)
    requires r != [] && r[0] == b && b in m.back && Distinct(r)
    requires m.swapped !! m.ignored !! m.back !! m.fwd !! m.skipped
    requires m' == m.(back := m.back - {b})
    ensures Good(c, r, m) <==> Good(c, r[1..], m')
  {
    ConsFacts(r);
    WithoutAgree(r[1..], m.swapped + m.back, m'.swapped + m'.back);
    WithoutMember(c, m.swapped + m.ignored + m.fwd, b);
    WithoutMember(r[1..], m'.swapped + m'.back, b);
  }

  lemma {:induction false} GoodForwardFound(c: seq<Field>, r: seq<Field>, m: Marks, m': Marks, a: Field)
    requires c != [] && c[0] == a && a in m.fwd && a !in r
    requires m.swapped !! m.ignored !! m.back !! m.fwd !! m.skipped
    requires m' == m.(fwd := m.fwd - {a})
    ensures Good(c, r, m) <==> Good(c[1..], r, m')
  {
    ConsFacts(c);
    ForwardFoundKept(c, r, m, m', a);
  }

  /** A field that is in neither list any more does not matter for what is left of them. */
  lemma {:induction false} ForwardFoundKept(c: seq<Field>, r: seq<Field>, m: Marks, m': Marks, a: Field)
    requires c != [] && c[0] == a && a in m.fwd && a !in r && a !in m.swapped && a !in m.ignored
    requires m' == m.(fwd := m.fwd - {a})
    ensures var d, e := m.swapped + m.ignored + m.fwd, m'.swapped + m'.ignored + m'.fwd;
            && (a !in c[1..] ==> Without(c, d) == Without(c[1..], e))
            && (Without(c[1..], e) == Without(r, m.swapped + m.back) ==> a !in c[1..])
  {
    var d, e := m.swapped + m.ignored + m.fwd, m'.swapped + m'.ignored + m'.fwd;
    WithoutMember(c[1..], e, a);
    WithoutMember(r, m.swapped + m.back, a);
    if a !in c[1..] { WithoutAgree(c[1..], d, e); }
  }

  lemma {:induction false} GoodMatch(c: seq<Field>, r: seq<Field>, m: Marks, a: Field)
    requires c != [] && r != [] && c[0] == a == r[0] && Distinct(r)
    requires a !in m.swapped && a !in m.ignored && a !in m.fwd && a !in m.back && a !in m.skipped
    ensures Good(c, r, m) <==> Good(c[1..], r[1..], m)
  {
    ConsFacts(c);
    ConsFacts(r);
    WithoutMember(c[1..], m.swapped + m.ignored + m.fwd, a);
    WithoutMember(r[1..], m.swapped + m.back, a);
    var restC, restR := Without(c[1..], m.swapped + m.ignored + m.fwd), Without(r[1..], m.swapped + m.back);
    assert restC == ([a] + restC)[1..] && restR == ([a] + restR)[1..];
  }

  /** A step neither loses nor gains the agreement of the two lists. */
  lemma {:induction false} StepKeepsGood(c: seq<Field>, r: seq<Field>, reflected: seq<Field>, m: Marks)
    requires c != [] && Inv(r, reflected, m)
    ensures var s := Step(c, r, reflected, m);
            if s.Next? then Good(c, r, m) <==> Good(s.c, s.r, s.m)
            else Good(c, r, m) ==> s.reason == SwappedInPlace
  {
    var a, s := c[0], Step(c, r, reflected, m);
    if a in m.swapped {
      if a in reflected { GoodBackMark(c, r, m, m.(swapped := m.swapped - {a}, back := m.back + {a}), a); }
    } else if r != [] && r[0] in m.swapped {
      GoodForwardMark(c, r, m, s.m, r[0]);
    } else if r != [] && r[0] in m.skipped {
    } else if a in m.ignored {
      GoodIgnore(c, r, m, m.(ignored := m.ignored - {a}, skipped := m.skipped + {a}), a);
    } else if r != [] && r[0] in m.back {
      GoodBackFound(c, r, m, s.m, r[0]);
    } else if a in m.fwd {
      GoodForwardFound(c, r, m, s.m, a);
    } else if r != [] && r[0] == a {
      GoodMatch(c, r, m, a);
    } else {
      assert Without(c, m.swapped + m.ignored + m.fwd)[0] == a;
      assert r != [] ==> Without(r, m.swapped + m.back)[0] == r[0];
    }
  }

  // ---- A step neither creates nor hides a needless swap mark ----

  /** The class cursor passes a swapped field that the macro cursor is not on. */
  lemma {:induction false} NeedlessBackMark(c: seq<Field>, r: seq<Field>, s: set<Field>)
    requires c != [] && c[0] in s && Distinct(c) && (r == [] || r[0] != c[0])
    ensures Needless(c, r, s) <==> Needless(c[1..], r, s - {c[0]})
  {
    var a, c', s' := c[0], c[1..], s - {c[0]};
    forall i: nat, p: nat, q: nat | NeedlessAt(c, r, s, i, p, q) ensures Needless(c', r, s') {
      assert NeedlessAt(c', r, s', if i == 0 then 0 else i - 1, p - 1, q);
    }
    forall i: nat, p: nat, q: nat | NeedlessAt(c', r, s', i, p, q) ensures Needless(c, r, s) {
      assert NeedlessAt(c, r, s, if i == 0 then 0 else i + 1, p + 1, q);
    }
  }

  /** The class cursor passes a field that is not swapped and not reflected. */
  lemma {:induction false} NeedlessSkip(c: seq<Field>, r: seq<Field>, s: set<Field>)
    requires c != [] && c[0] !in s && c[0] !in r && (r == [] || r[0] !in s)
    ensures Needless(c, r, s) <==> Needless(c[1..], r, s)
  {
    var c' := c[1..];
    forall i: nat, p: nat, q: nat | NeedlessAt(c, r, s, i, p, q) ensures Needless(c', r, s) {
      assert NeedlessAt(c', r, s, i - 1, p - 1, q);
    }
    forall i: nat, p: nat, q: nat | NeedlessAt(c', r, s, i, p, q) ensures Needless(c, r, s) {
      assert NeedlessAt(c, r, s, i + 1, p + 1, q);
    }
  }

  /** The macro cursor passes a swapped field while the class cursor is on an unswapped one. */
  lemma {:induction false} NeedlessForwardMark(c: seq<Field>, r: seq<Field>, s: set<Field>)
    requires c != [] && r != [] && c[0] !in s && r[0] in s && Distinct(r)
    ensures Needless(c, r, s) <==> Needless(c, r[1..], s - {r[0]})
  {
    var r', s' := r[1..], s - {r[0]};
    forall i: nat, p: nat, q: nat | NeedlessAt(c, r, s, i, p, q) ensures Needless(c, r', s') {
      assert r[..q] == [r[0]] + r'[..q-1];
      assert NeedlessAt(c, r', s', i, p, q - 1);
    }
    forall i: nat, p: nat, q: nat | NeedlessAt(c, r', s', i, p, q) ensures Needless(c, r, s) {
      assert r[..q+1] == [r[0]] + r'[..q];
      assert NeedlessAt(c, r, s, i, p, q + 1);
    }
  }

  lemma {:induction false} PrefixBehind(r: seq<Field>, q: nat, x: Field)
    requires q < |r|
    ensures x in r[..q+1] <==> x == r[0] || x in r[1..][..q]
  {
    assert r[..q+1] == [r[0]] + r[1..][..q];
  }

  lemma {:induction false} NeedlessBehind(c: seq<Field>, r: seq<Field>, s: set<Field>, i: nat, p: nat, q: nat)
    requires c != [] && r != [] && c[0] !in s && r[0] !in s && r[0] !in c
    ensures NeedlessAt(c, r, s, i, p, q + 1) <==> NeedlessAt(c, r[1..], s, i, p, q)
    ensures !NeedlessAt(c, r, s, i, p, 0)
  {
    if i <= p < |c| && q + 1 < |r| {
      forall j | i <= j <= p ensures c[j] in r[..q+1] <==> c[j] in r[1..][..q] { PrefixBehind(r, q, c[j]); }
      assert r[1..][q] == r[q+1] && (q > 0 ==> r[1..][q-1] == r[q]);
      assert i == 0 ==> c[i] !in s;
      assert q == 0 && i > 0 ==> c[i-1] != r[q];
    }
  }

  /** The macro cursor passes a field that is not swapped any more and not in the class. */
  lemma {:induction false} NeedlessBackFound(c: seq<Field>, r: seq<Field>, s: set<Field>)
    requires c != [] && r != [] && c[0] !in s && r[0] !in s && r[0] !in c
    ensures Needless(c, r, s) <==> Needless(c, r[1..], s)
  {
    forall i: nat, p: nat, q: nat | NeedlessAt(c, r, s, i, p, q) ensures Needless(c, r[1..], s) {
      NeedlessBehind(c, r, s, i, p, if q == 0 then 0 else q - 1);
    }
    forall i: nat, p: nat, q: nat | NeedlessAt(c, r[1..], s, i, p, q) ensures Needless(c, r, s) {
      NeedlessBehind(c, r, s, i, p, q);
    }
  }

  /** Both cursors pass the same unswapped field. */
  lemma {:induction false} NeedlessMatch(c: seq<Field>, r: seq<Field>, s: set<Field>)
    requires c != [] && r != [] && c[0] == r[0] && c[0] !in s && Distinct(c) && Distinct(r)
    ensures Needless(c, r, s) <==> Needless(c[1..], r[1..], s)
  {
    var c', r' := c[1..], r[1..];
    forall i: nat, p: nat, q: nat | NeedlessAt(c, r, s, i, p, q) ensures Needless(c', r', s) {
      assert r[..q] == [r[0]] + r'[..q-1];
      assert NeedlessAt(c', r', s, i - 1, p - 1, q - 1);
    }
    forall i: nat, p: nat, q: nat | NeedlessAt(c', r', s, i, p, q) ensures Needless(c, r, s) {
      assert r[..q+1] == [r[0]] + r'[..q];
      assert NeedlessAt(c, r, s, i + 1, p + 1, q + 1);
    }
  }

  lemma {:induction false} StepKeepsNeedless(c: seq<Field>, r: seq<Field>, reflected: seq<Field>, m: Marks)
    requires c != [] && Inv(r, reflected, m) && Good(c, r, m)
    ensures var s := Step(c, r, reflected, m);
            if s.Next? then Needless(c, r, m.swapped) <==> Needless(s.c, s.r, s.m.swapped)
            else Needless(c, r, m.swapped)
  {
    StepKeepsGood(c, r, reflected, m);
    var a, s := c[0], Step(c, r, reflected, m);
    if s.Stop? {
      assert NeedlessAt(c, r, m.swapped, 0, 0, 0);
    } else if a in m.swapped {
      NeedlessBackMark(c, r, m.swapped);
    } else if r != [] && r[0] in m.swapped {
      NeedlessForwardMark(c, r, m.swapped);
    } else if a in m.ignored {
      NeedlessSkip(c, r, m.swapped);
    } else if r != [] && r[0] in m.back {
      NeedlessBackFound(c, r, m.swapped);
    } else if a in m.fwd {
      NeedlessSkip(c, r, m.swapped);
    } else {
      NeedlessMatch(c, r, m.swapped);
    }
  }

  // ---- Exact acceptance ----

  lemma {:induction false} DrainExact(r: seq<Field>, back: set<Field>)
    requires Distinct(r)
    ensures var (left, unused) := Drain(r, back);
            && left == (set x | x in back && x !in r)
            && (unused == [] <==> forall x <- r :: x in back)
  {
    if r != [] {
      ConsFacts(r);
      if r[0] in back {
        DrainExact(r[1..], back - {r[0]});
        assert forall x <- r[1..] :: x in back - {r[0]} <==> x in back;
      } else {
        DrainExact(r[1..], back);
      }
    }
  }

  lemma {:induction false} WithoutEmpty(s: seq<Field>, d: set<Field>)
    ensures Without(s, d) == [] <==> forall x <- s :: x in d
  {
    if s != [] {
      ConsFacts(s);
      WithoutEmpty(s[1..], d);
    }
  }

  lemma {:induction false} FinishExact(r: seq<Field>, reflected: seq<Field>, m: Marks)
    requires Inv(r, reflected, m)
    ensures Finish(r, m).verdict == Accepted <==> Good([], r, m)
    ensures !Needless([], r, m.swapped)
  {
    DrainExact(r, m.back);
    GoodAtEnd(r, reflected, m);
  }

  lemma {:induction false} GoodAtEnd(r: seq<Field>, reflected: seq<Field>, m: Marks)
    requires Inv(r, reflected, m)
    ensures Good([], r, m) <==>
            m.swapped == {} && m.ignored == {} && m.fwd == {} && forall x :: x in r <==> x in m.back
  {
    WithoutEmpty(r, m.swapped + m.back);
  }

  /** From any reachable state: a run accepts exactly when the lists agree and no needless swap mark
      remains, and when they agree a needless mark is the only thing it can object to. */
  lemma {:induction false} RunExact(c: seq<Field>, r: seq<Field>, reflected: seq<Field>, m: Marks)
    requires Inv(r, reflected, m)
    ensures var v := Run(c, r, reflected, m).verdict;
            if !Good(c, r, m) then v.Rejected?
            else if Needless(c, r, m.swapped) then v == Rejected(SwappedInPlace)
            else v == Accepted
    decreases |c| + |r|
  {
    if c == [] {
      FinishExact(r, reflected, m);
    } else {
      StepKeepsGood(c, r, reflected, m);
      if Good(c, r, m) { StepKeepsNeedless(c, r, reflected, m); }
      var s := Step(c, r, reflected, m);
      if s.Next? {
        StepKeepsInv(c, r, reflected, m);
        RunExact(s.c, s.r, reflected, s.m);
      }
    }
  }

  /** The acceptance theorem.  For every class and every macro with unrepeated fields and annotations
      that do not contradict each other, the verdict is decided by two conditions on the input. */
  lemma {:induction false} DecideExact(c: seq<Field>, r: seq<Field>, swapped: set<Field>, ignored: set<Field>)
    requires Distinct(r) && swapped !! ignored
    ensures var v := Decide(c, r, swapped, ignored);
            if !Agree(c, r, swapped, ignored) then v.Rejected?
            else if Needless(c, r, swapped) then v == Rejected(SwappedInPlace)
            else v == Accepted
  {
    var m := Start(swapped, ignored);
    RunExact(c, r, r, m);
    assert m.swapped + m.ignored + m.fwd == swapped + ignored;
    assert m.swapped + m.back == swapped;
  }
}
