/** The per-reflection part of validate_file on the source's own lists, and what it decides for every
    reflection that reading a file can produce. */
module Validation {
  import opened Sequences
  import opened Matching
  import opened Reflections
  import MatchingRules
  import RedundantMarks

  const ID := Field("id")

  /** Python's list.remove on a list that holds `x`. */
  function Removed(s: seq<Field>, x: Field): seq<Field>
    requires x in s
  {
    if s[0] == x then s[1..] else [s[0]] + Removed(s[1..], x)
  }

  lemma {:induction false} RemovedFacts(s: seq<Field>, x: Field)
    requires x in s && Distinct(s)
    ensures Distinct(Removed(s, x)) && Names(Removed(s, x)) == Names(s) - {x}
  {
    ConsFacts(s);
    if s[0] != x {
      RemovedFacts(s[1..], x);
      var t := Removed(s[1..], x);
      assert forall y :: y in t <==> y in Names(t);
      assert ([s[0]] + t)[1..] == t;
      ConsFacts([s[0]] + t);
    }
  }

  /** The ignore list after the implicit `id` of chainbase objects was added. */
  function ImplicitIgnored(r: Record, ignoreId: bool): seq<Field> {
    if ignoreId && ID !in r.ignored && ID !in r.fields then r.ignored + [ID] else r.ignored
  }

  /** The verdict on one reflection. */
  function Verdicts(r: Record, ignoreId: bool, classFields: seq<Field>): Verdict {
    Decide(classFields, r.fields, Names(r.swapped), Names(ImplicitIgnored(r, ignoreId)))
  }

  method Match(classFields: seq<Field>, r: Reflection) returns (v: Verdict)
    requires Distinct(r.ignored) && Distinct(r.swapped)
    modifies r
    ensures r.fields == old(r.fields)
    ensures var o := Run(classFields, r.fields, r.fields, Start(Names(old(r.swapped)), Names(old(r.ignored))));
            v == o.verdict && Names(r.swapped) == o.left.swapped && Names(r.ignored) == o.left.ignored
  {
    var back, fwd, skipped: seq<Field> := [], [], [];
    var f, rf := 0, 0;
    ghost var m := Start(Names(r.swapped), Names(r.ignored));
    ghost var goal := Run(classFields, r.fields, r.fields, m);
    assert classFields[0..] == classFields && r.fields[0..] == r.fields && Names([]) == {};
    while f < |classFields|
      invariant 0 <= f <= |classFields| && 0 <= rf <= |r.fields| && r.fields == old(r.fields)
      invariant Distinct(r.ignored) && Distinct(r.swapped) && Distinct(back) && Distinct(fwd) && Distinct(skipped)
      invariant Names(r.swapped) !! Names(back) && Names(r.swapped) !! Names(fwd) && Names(r.ignored) !! Names(skipped)
      invariant m == Marks(Names(r.swapped), Names(r.ignored), Names(back), Names(fwd), Names(skipped))
      invariant goal == Run(classFields[f..], r.fields[rf..], r.fields, m)
      decreases |classFields| - f + |r.fields| - rf
    {
      var a := classFields[f];
      ghost var s := Step(classFields[f..], r.fields[rf..], r.fields, m);
      assert classFields[f..][1..] == classFields[f+1..];
      assert rf < |r.fields| ==> r.fields[rf..][1..] == r.fields[rf+1..];
      if a in r.swapped {
        RemovedFacts(r.swapped, a);
        r.swapped := Removed(r.swapped, a);
        DistinctAppend(back, a);
        back := back + [a];
        if a !in r.fields { return Rejected(SwappedNotReflected); }
        if rf < |r.fields| && r.fields[rf] == a { return Rejected(SwappedInPlace); }
        f := f + 1;
        m := s.m;
        continue;
      }
      if rf < |r.fields| && r.fields[rf] in r.swapped {
        RemovedFacts(r.swapped, r.fields[rf]);
        DistinctAppend(fwd, r.fields[rf]);
        r.swapped := Removed(r.swapped, r.fields[rf]);
        fwd := fwd + [r.fields[rf]];
        rf := rf + 1;
        m := s.m;
        continue;
      }
      if rf < |r.fields| && r.fields[rf] in skipped { return Rejected(SkippedButReflected); }
      if a in r.ignored {
        RemovedFacts(r.ignored, a);
        DistinctAppend(skipped, a);
        r.ignored := Removed(r.ignored, a);
        skipped := skipped + [a];
        if rf < |r.fields| && r.fields[rf] == a { return Rejected(IgnoredInPlace); }
        f := f + 1;
        m := s.m;
        continue;
      }
      if rf < |r.fields| && r.fields[rf] in back {
        RemovedFacts(back, r.fields[rf]);
        back := Removed(back, r.fields[rf]);
        rf, m := rf + 1, s.m;
      } else if a in fwd {
        RemovedFacts(fwd, a);
        fwd := Removed(fwd, a);
        f, m := f + 1, s.m;
      } else {
        if rf == |r.fields| || r.fields[rf] != a { return Rejected(FieldMismatch); }
        f, rf, m := f + 1, rf + 1, s.m;
      }
    }
    v := Finished(r, back, fwd, rf, Names(skipped));
  }

  /** The loop over the reflected fields that are left when the class is exhausted. */
  method DrainRest(fields: seq<Field>, at: nat, openBack: seq<Field>) returns (back: seq<Field>, unused: seq<Field>)
    requires Distinct(openBack) && at <= |fields|
    ensures (Names(back), unused) == Drain(fields[at..], Names(openBack))
  {
    back, unused := openBack, [];
    var rf := at;
    ghost var goal := Drain(fields[at..], Names(openBack));
    while rf < |fields|
      invariant at <= rf <= |fields| && Distinct(back)
      invariant goal.0 == Drain(fields[rf..], Names(back)).0
      invariant goal.1 == unused + Drain(fields[rf..], Names(back)).1
    {
      assert fields[rf..][1..] == fields[rf+1..];
      if fields[rf] in back {
        RemovedFacts(back, fields[rf]);
        back := Removed(back, fields[rf]);
      } else {
        assert goal.1 == unused + [fields[rf]] + Drain(fields[rf+1..], Names(back)).1;
        unused := unused + [fields[rf]];
      }
      rf := rf + 1;
    }
    assert fields[rf..] == [] && unused + [] == unused;
  }

  /** The assertions after the main loop. */
  method Finished(r: Reflection, openBack: seq<Field>, fwd: seq<Field>, at: nat, ghost skipped: set<Field>)
      returns (v: Verdict)
    requires Distinct(openBack) && at <= |r.fields|
    ensures v == Finish(r.fields[at..],
                        Marks(Names(r.swapped), Names(r.ignored), Names(openBack), Names(fwd), skipped)).verdict
  {
    assert forall s: seq<Field> :: s != [] ==> s[0] in Names(s);
    if |r.ignored| != 0 { return Rejected(ErroneousIgnores); }
    var back, unused := DrainRest(r.fields, at, openBack);
    if |unused| != 0 { return Rejected(UnusedReflected); }
    if |r.swapped| != 0 { return Rejected(ErroneousSwaps); }
    if |back| != 0 { return Rejected(BackNeverProvided); }
    if |fwd| != 0 { return Rejected(ForwardNotInClass); }
    return Accepted;
  }

  method Validate(r: Reflection, ignoreId: bool, classFields: seq<Field>) returns (v: Verdict)
    requires WellMarked(r.Value())
    modifies r
    ensures v == Verdicts(old(r.Value()), ignoreId, classFields)
    ensures v == Accepted ==> r.ignored == [] && r.swapped == []
  {
    if ignoreId {
      if ID !in r.ignored && ID !in r.fields {
        DistinctAppend(r.ignored, ID);
        r.ignored := r.ignored + [ID];
      }
    }
    ghost var marks := Start(Names(r.swapped), Names(r.ignored));
    v := Match(classFields, r);
    if v == Accepted {
      AcceptedUsesAllMarks(classFields, r.fields, r.fields, marks);
      assert forall s: seq<Field> :: s != [] ==> s[0] in Names(s);
    }
  }

  /** Nothing is accepted while an annotation is unused. */
  lemma {:induction false} AcceptedUsesAllMarks(c: seq<Field>, r: seq<Field>, reflected: seq<Field>, m: Marks)
    requires Run(c, r, reflected, m).verdict == Accepted
    ensures var left := Run(c, r, reflected, m).left;
            left.swapped == {} && left.ignored == {} && left.back == {} && left.fwd == {}
    decreases |c| + |r|
  {
    if c != [] {
      var s := Step(c, r, reflected, m);
      AcceptedUsesAllMarks(s.c, s.r, reflected, s.m);
    }
  }

  /** The names ignored for a class, by the calls: those marked, and `id` for a chainbase object that does not
      reflect it. */
  function IgnoredBy(calls: seq<Call>, name: string, ignoreId: bool): set<Field> {
    Names(MarksOf(calls, name, Ignore)) + if ignoreId && ID !in FieldsOf(calls, name) then {ID} else {}
  }

  lemma {:induction false} TableByCalls(calls: seq<Call>, name: string, ignoreId: bool)
    requires PerformAll(map[], calls).1 == Passed && name in PerformAll(map[], calls).0
    ensures var r := PerformAll(map[], calls).0[name];
            && r.fields == FieldsOf(calls, name) && r.swapped == MarksOf(calls, name, Swap)
            && Names(ImplicitIgnored(r, ignoreId)) == IgnoredBy(calls, name, ignoreId)
  {
    CollectedExactly(map[], calls, name);
    assert [] + FieldsOf(calls, name) == FieldsOf(calls, name);
    assert [] + MarksOf(calls, name, Swap) == MarksOf(calls, name, Swap);
    assert [] + MarksOf(calls, name, Ignore) == MarksOf(calls, name, Ignore);
  }

  /** The whole tool, for every file: whatever calls built the table, a reflection is accepted exactly
      when its fields agree with the class up to the annotations and no swap mark is needless.  When all calls
      returned, these are the fields and annotations of the calls. */
  lemma {:induction false} ValidationExact(calls: seq<Call>, name: string, ignoreId: bool, classFields: seq<Field>)
    requires name in PerformAll(map[], calls).0
    ensures var r := PerformAll(map[], calls).0[name];
            Verdicts(r, ignoreId, classFields) == Accepted <==>
            && Agree(classFields, r.fields, Names(r.swapped), Names(ImplicitIgnored(r, ignoreId)))
            && !Needless(classFields, r.fields, Names(r.swapped))
    ensures PerformAll(map[], calls).1 == Passed ==>
            var fields, swapped := FieldsOf(calls, name), Names(MarksOf(calls, name, Swap));
            Verdicts(PerformAll(map[], calls).0[name], ignoreId, classFields) == Accepted <==>
            && Agree(classFields, fields, swapped, IgnoredBy(calls, name, ignoreId))
            && !Needless(classFields, fields, swapped)
  {
    if PerformAll(map[], calls).1 == Passed { TableByCalls(calls, name, ignoreId); }
    ReachableWellMarked(map[], calls);
    var r := PerformAll(map[], calls).0[name];
    var ignored := ImplicitIgnored(r, ignoreId);
    if Names(r.swapped) !! Names(ignored) {
      DecideExact(classFields, r.fields, Names(r.swapped), Names(ignored));
    } else {
      assert ID in r.swapped && ID in ignored && ID !in r.fields;
      MatchingRules.ContradictoryMark(classFields, r.fields, r.fields, Start(Names(r.swapped), Names(ignored)), ID);
    }
  }

  /** The same in the terms of the documented rule: it is accepted exactly when its fields agree with the
      class up to the annotations, and every swap mark that could be left out is hidden. */
  lemma {:induction false} ValidationRule(calls: seq<Call>, name: string, ignoreId: bool, classFields: seq<Field>)
    requires name in PerformAll(map[], calls).0
    ensures var r := PerformAll(map[], calls).0[name];
            var swapped, ignored := Names(r.swapped), Names(ImplicitIgnored(r, ignoreId));
            Verdicts(r, ignoreId, classFields) == Accepted <==>
            && Agree(classFields, r.fields, swapped, ignored)
            && RedundantMarks.AllHidden(classFields, r.fields, swapped, ignored)
    ensures PerformAll(map[], calls).1 == Passed ==>
            var fields, swapped := FieldsOf(calls, name), Names(MarksOf(calls, name, Swap));
            Verdicts(PerformAll(map[], calls).0[name], ignoreId, classFields) == Accepted <==>
            && Agree(classFields, fields, swapped, IgnoredBy(calls, name, ignoreId))
            && RedundantMarks.AllHidden(classFields, fields, swapped, IgnoredBy(calls, name, ignoreId))
  {
    if PerformAll(map[], calls).1 == Passed { TableByCalls(calls, name, ignoreId); }
    ValidationExact(calls, name, ignoreId, classFields);
    ReachableWellMarked(map[], calls);
    var r := PerformAll(map[], calls).0[name];
    var swapped, ignored := Names(r.swapped), Names(ImplicitIgnored(r, ignoreId));
    if Agree(classFields, r.fields, swapped, ignored) {
      RedundantMarks.AcceptsExactly(classFields, r.fields, swapped, ignored);
      DecideExact(classFields, r.fields, swapped, ignored);
    }
  }
}
