/** The reflections collected from a file (classes Reflection and Reflections). */
module Reflections {
  import opened Sequences
  import opened Matching

  /** The lists of one Reflection, as a value. */
  datatype Record = Record(fields: seq<Field>, ignored: seq<Field>, swapped: seq<Field>)

  const EMPTY := Record([], [], [])

  datatype Kind = Ignore | Swap

  /** A name is added to a list once, and is not both ignored and swapped. */
  ghost predicate WellMarked(r: Record) {
    Distinct(r.fields) && Distinct(r.ignored) && Distinct(r.swapped) && Names(r.ignored) !! Names(r.swapped)
  }

  function Names(s: seq<Field>): set<Field> { set x <- s }

  type Table = map<string, Record>

  function Lookup(t: Table, name: string): Record { if name in t then t[name] else EMPTY }

  /** How a call ends: it returns, an assertion fails, or the message of a failing assertion cannot be
      formatted, which raises an exception of another kind. */
  datatype End = Passed | Asserted | Misformatted

  /** A record after its assertion on field `f`. */
  function WithField(r: Record, f: Field): (Record, End) {
    if f in r.fields then (r, Asserted) else (r.(fields := r.fields + [f]), Passed)
  }

  /** A record after the assertions on the annotation `f`; the one on a repeated swap mark has too few
      arguments for its message. */
  function WithMark(r: Record, kind: Kind, f: Field): (Record, End) {
    match kind
    case Ignore =>
      if f in r.ignored || f in r.swapped then (r, Asserted) else (r.(ignored := r.ignored + [f]), Passed)
    case Swap =>
      if f in r.swapped then (r, Misformatted)
      else if f in r.ignored then (r, Asserted)
      else (r.(swapped := r.swapped + [f]), Passed)
  }

  /** The table after add_field. */
  function FieldAdded(t: Table, name: string, f: Field): (Table, End) {
    var (r, end) := WithField(Lookup(t, name), f);
    (t[name := r], end)
  }

  /** The table after one pass of the loop of add_ignore_swaps. */
  function MarkAdded(t: Table, name: string, kind: Kind, f: Field): (Table, End) {
    var (r, end) := WithMark(Lookup(t, name), kind, f);
    (t[name := r], end)
  }

  function MarksAdded(t: Table, name: string, kind: Kind, marks: seq<Field>): (Table, End)
    decreases |marks|
  {
    if marks == [] then (t, Passed)
    else
      var (t', end) := MarkAdded(t, name, kind, marks[0]);
      if end == Passed then MarksAdded(t', name, kind, marks[1..]) else (t', end)
  }

  datatype Call =
    | AddField(name: string, field: Field)
    | AddMarks(name: string, kind: Kind, marks: seq<Field>)
    | FindOrAdd(name: string)

  function Perform(t: Table, call: Call): (Table, End) {
    match call
    case AddField(name, f) => FieldAdded(t, name, f)
    case AddMarks(name, kind, marks) => MarksAdded(t, name, kind, marks)
    case FindOrAdd(name) => (t[name := Lookup(t, name)], Passed)
  }

  /** The table after a sequence of calls, stopping at the first that does not return. */
  function PerformAll(t: Table, calls: seq<Call>): (Table, End)
    decreases |calls|
  {
    if calls == [] then (t, Passed)
    else
      var (t', end) := Perform(t, calls[0]);
      if end == Passed then PerformAll(t', calls[1..]) else (t', end)
  }

  ghost predicate WellMarkedTable(t: Table) {
    forall n <- t :: WellMarked(t[n])
  }

  lemma {:induction false} DistinctAppend(s: seq<Field>, x: Field)
    requires Distinct(s) && x !in s
    ensures Distinct(s + [x])
    ensures Names(s + [x]) == Names(s) + {x}
  {
  }

  lemma {:induction false} MarksKeepWellMarked(t: Table, name: string, kind: Kind, marks: seq<Field>)
    requires WellMarkedTable(t)
    ensures WellMarkedTable(MarksAdded(t, name, kind, marks).0)
    decreases |marks|
  {
    if marks != [] {
      var r, f := Lookup(t, name), marks[0];
      if f !in r.ignored && f !in r.swapped {
        DistinctAppend(if kind == Ignore then r.ignored else r.swapped, f);
        MarksKeepWellMarked(MarkAdded(t, name, kind, f).0, name, kind, marks[1..]);
      }
    }
  }

  /** The j-th mark of a comment is on a field that has one, from before or from this comment. */
  ghost predicate Again(r: Record, marks: seq<Field>, j: nat)
    requires j < |marks|
  {
    marks[j] in r.ignored || marks[j] in r.swapped || marks[j] in marks[..j]
  }

  /** The j-th mark is the first of that kind. */
  ghost predicate FirstAgain(r: Record, marks: seq<Field>, j: nat) {
    j < |marks| && Again(r, marks, j) && forall i: nat :: i < j ==> !Again(r, marks, i)
  }

  lemma {:induction false} AgainNext(r: Record, kind: Kind, marks: seq<Field>, j: nat)
    requires 0 < j < |marks| && !Again(r, marks, 0)
    ensures Again(r, marks, j) <==> Again(WithMark(r, kind, marks[0]).0, marks[1..], j - 1)
    ensures marks[j] in r.swapped || (kind == Swap && marks[j] in marks[..j]) <==>
            var s := WithMark(r, kind, marks[0]).0;
            marks[j] in s.swapped || (kind == Swap && marks[j] in marks[1..][..j-1])
  {
    assert marks[..j] == [marks[0]] + marks[1..][..j-1];
  }

  /** A comment's marks are all added exactly when none is on a field that has one; the first that is ends
      the call with a failed assertion, unless it repeats a swap mark: then formatting fails. */
  lemma {:induction false} MarksEnd(t: Table, name: string, kind: Kind, marks: seq<Field>)
    ensures var r, end := Lookup(t, name), MarksAdded(t, name, kind, marks).1;
            && (end == Passed <==> forall j: nat :: j < |marks| ==> !Again(r, marks, j))
            && (end == Misformatted <==> exists j: nat :: FirstAgain(r, marks, j) && RepeatsSwap(r, kind, marks, j))
    decreases |marks|
  {
    var r := Lookup(t, name);
    if marks != [] {
      if Again(r, marks, 0) {
        assert forall j: nat :: FirstAgain(r, marks, j) ==> j == 0;
        assert FirstAgain(r, marks, 0);
      } else {
        MarksEnd(MarkAdded(t, name, kind, marks[0]).0, name, kind, marks[1..]);
        MarksEndNext(r, kind, marks);
      }
    }
  }

  /** Marking a field as swapped twice in one comment is enough. */
  lemma {:induction false} RepeatedSwap(name: string, f: Field)
    ensures MarksAdded(map[], name, Swap, [f, f]).1 == Misformatted
  {
    var t := MarkAdded(map[], name, Swap, f).0;
    assert [f, f][1..] == [f];
    assert MarksAdded(t, name, Swap, [f]).1 == MarkAdded(t, name, Swap, f).1;
  }

  ghost predicate RepeatsSwap(r: Record, kind: Kind, marks: seq<Field>, j: nat)
    requires j < |marks|
  {
    kind == Swap && (marks[j] in r.swapped || marks[j] in marks[..j])
  }

  lemma {:induction false} MarksEndNext(r: Record, kind: Kind, marks: seq<Field>)
    requires marks != [] && !Again(r, marks, 0)
    ensures var s, rest := WithMark(r, kind, marks[0]).0, marks[1..];
            && ((forall j: nat :: j < |marks| ==> !Again(r, marks, j)) <==>
                forall j: nat :: j < |rest| ==> !Again(s, rest, j))
            && ((exists j: nat :: FirstAgain(r, marks, j) && RepeatsSwap(r, kind, marks, j)) <==>
                exists j: nat :: FirstAgain(s, rest, j) && RepeatsSwap(s, kind, rest, j))
  {
    var s, rest := WithMark(r, kind, marks[0]).0, marks[1..];
    forall j: nat | 0 < j < |marks|
      ensures Again(r, marks, j) <==> Again(s, rest, j - 1)
      ensures RepeatsSwap(r, kind, marks, j) <==> RepeatsSwap(s, kind, rest, j - 1)
    {
      AgainNext(r, kind, marks, j);
    }
    forall j: nat | j < |rest| ensures Again(s, rest, j) <==> Again(r, marks, j + 1) { }
    forall j: nat | FirstAgain(r, marks, j) ensures j > 0 && FirstAgain(s, rest, j - 1) {
      forall i: nat | i < j - 1 ensures !Again(s, rest, i) { assert !Again(r, marks, i + 1); }
    }
    forall j: nat | FirstAgain(s, rest, j) ensures FirstAgain(r, marks, j + 1) {
      forall i: nat | i < j + 1 ensures !Again(r, marks, i) { if i > 0 { assert !Again(s, rest, i - 1); } }
    }
  }

  lemma {:induction false} PerformKeepsWellMarked(t: Table, call: Call)
    requires WellMarkedTable(t)
    ensures WellMarkedTable(Perform(t, call).0)
  {
    match call
    case AddField(name, f) =>
      var r := Lookup(t, name);
      if f !in r.fields { DistinctAppend(r.fields, f); }
    case AddMarks(name, kind, marks) => MarksKeepWellMarked(t, name, kind, marks);
    case FindOrAdd(name) =>
  }

  /** However a table came about, each of its records is free of repetition and contradiction. */
  lemma {:induction false} ReachableWellMarked(t: Table, calls: seq<Call>)
    requires WellMarkedTable(t)
    ensures WellMarkedTable(PerformAll(t, calls).0)
    decreases |calls|
  {
    if calls != [] {
      PerformKeepsWellMarked(t, calls[0]);
      if Perform(t, calls[0]).1 == Passed { ReachableWellMarked(Perform(t, calls[0]).0, calls[1..]); }
    }
  }

  // ---- What is collected, by the calls alone ----

  function FieldsIn(call: Call, name: string): seq<Field> {
    if call.AddField? && call.name == name then [call.field] else []
  }

  function MarksIn(call: Call, name: string, kind: Kind): seq<Field> {
    if call.AddMarks? && call.name == name && call.kind == kind then call.marks else []
  }

  /** The fields of the calls for `name`, in order. */
  function FieldsOf(calls: seq<Call>, name: string): seq<Field>
    decreases |calls|
  {
    if calls == [] then [] else FieldsIn(calls[0], name) + FieldsOf(calls[1..], name)
  }

  /** The marks of that kind of the calls for `name`, in order. */
  function MarksOf(calls: seq<Call>, name: string, kind: Kind): seq<Field>
    decreases |calls|
  {
    if calls == [] then [] else MarksIn(calls[0], name, kind) + MarksOf(calls[1..], name, kind)
  }

  /** A record with these on top. */
  function Longer(r: Record, fields: seq<Field>, ignored: seq<Field>, swapped: seq<Field>): Record {
    Record(r.fields + fields, r.ignored + ignored, r.swapped + swapped)
  }

  /** What one call gives `name` on top of what it has, and what a sequence of calls gives. */
  function With(r: Record, call: Call, name: string): Record {
    Longer(r, FieldsIn(call, name), MarksIn(call, name, Ignore), MarksIn(call, name, Swap))
  }

  function Collected(r: Record, calls: seq<Call>, name: string): Record {
    Longer(r, FieldsOf(calls, name), MarksOf(calls, name, Ignore), MarksOf(calls, name, Swap))
  }

  lemma {:induction false} MarksCollect(t: Table, name: string, kind: Kind, marks: seq<Field>, other: string)
    requires MarksAdded(t, name, kind, marks).1 == Passed
    ensures var r, s := Lookup(t, other), Lookup(MarksAdded(t, name, kind, marks).0, other);
            if other != name then s == r
            else s == if kind == Ignore then r.(ignored := r.ignored + marks) else r.(swapped := r.swapped + marks)
    decreases |marks|
  {
    var r := Lookup(t, name);
    if marks == [] {
      assert r.ignored + marks == r.ignored && r.swapped + marks == r.swapped;
    } else {
      MarksCollect(MarkAdded(t, name, kind, marks[0]).0, name, kind, marks[1..], other);
      assert marks == [marks[0]] + marks[1..];
      Regroup(r.ignored, [marks[0]], marks[1..]);
      Regroup(r.swapped, [marks[0]], marks[1..]);
    }
  }

  lemma {:induction false} CollectedFirst(r: Record, calls: seq<Call>, name: string)
    requires calls != []
    ensures Collected(r, calls, name) == Collected(With(r, calls[0], name), calls[1..], name)
  {
    Regroup(r.fields, FieldsIn(calls[0], name), FieldsOf(calls[1..], name));
    Regroup(r.ignored, MarksIn(calls[0], name, Ignore), MarksOf(calls[1..], name, Ignore));
    Regroup(r.swapped, MarksIn(calls[0], name, Swap), MarksOf(calls[1..], name, Swap));
  }

  lemma {:induction false} NothingMore(r: Record)
    ensures r.fields + [] == r.fields && r.ignored + [] == r.ignored && r.swapped + [] == r.swapped
  {
  }

  lemma {:induction false} OneCollected(t: Table, call: Call, name: string)
    requires Perform(t, call).1 == Passed
    ensures Lookup(Perform(t, call).0, name) == With(Lookup(t, name), call, name)
  {
    NothingMore(Lookup(t, name));
    if call.AddMarks? { MarksCollect(t, call.name, call.kind, call.marks, name); }
  }

  /** Calls that all return leave for every name exactly its fields and marks, in the order of the calls. */
  lemma {:induction false} CollectedExactly(t: Table, calls: seq<Call>, name: string)
    requires PerformAll(t, calls).1 == Passed
    ensures Lookup(PerformAll(t, calls).0, name) == Collected(Lookup(t, name), calls, name)
    decreases |calls|
  {
    if calls == [] {
      NothingMore(Lookup(t, name));
    } else {
      OneCollected(t, calls[0], name);
      CollectedExactly(Perform(t, calls[0]).0, calls[1..], name);
      CollectedFirst(Lookup(t, name), calls, name);
    }
  }

  lemma {:induction false} RepeatsLast(s: seq<Field>, f: Field)
    requires f in s
    ensures !Distinct(s + [f])
  {
    var i :| 0 <= i < |s| && s[i] == f;
    assert (s + [f])[i] == (s + [f])[|s|];
  }

  lemma {:induction false} AgainIsRepeated(r: Record, kind: Kind, marks: seq<Field>, j: nat)
    requires j < |marks| && Again(r, marks, j)
    ensures !WellMarked(if kind == Ignore then r.(ignored := r.ignored + marks) else r.(swapped := r.swapped + marks))
  {
    var own, f := if kind == Ignore then r.ignored else r.swapped, marks[j];
    var all := own + marks;
    assert all[|own| + j] == f && f in all;
    if f in own {
      var i :| 0 <= i < |own| && own[i] == f;
      assert all[i] == all[|own| + j];
    } else if f in marks[..j] {
      var i :| 0 <= i < j && marks[i] == f;
      assert all[|own| + i] == all[|own| + j];
    } else {
      assert f in Names(all) && f in Names(if kind == Ignore then r.swapped else r.ignored);
    }
  }

  /** Whether a call returns can be told from what it adds. */
  lemma {:induction false} OnePasses(t: Table, call: Call)
    requires WellMarkedTable(t)
    ensures Perform(t, call).1 == Passed <==> WellMarked(With(Lookup(t, call.name), call, call.name))
  {
    var r := Lookup(t, call.name);
    if Perform(t, call).1 == Passed {
      PerformKeepsWellMarked(t, call);
      OneCollected(t, call, call.name);
    } else {
      NothingMore(r);
      match call {
        case AddField(_, f) => RepeatsLast(r.fields, f);
        case AddMarks(name, kind, marks) =>
          MarksEnd(t, name, kind, marks);
          var j: nat :| j < |marks| && Again(r, marks, j);
          AgainIsRepeated(r, kind, marks, j);
      }
    }
  }

  /** A file's calls all return exactly when no name gets a field twice, or a mark twice, or marks of both kinds
      for a field. */
  lemma {:induction false} PassesExactly(t: Table, calls: seq<Call>)
    requires WellMarkedTable(t)
    ensures PerformAll(t, calls).1 == Passed <==> forall name :: WellMarked(Collected(Lookup(t, name), calls, name))
    decreases |calls|
  {
    if PerformAll(t, calls).1 == Passed {
      ReachableWellMarked(t, calls);
      forall name ensures WellMarked(Collected(Lookup(t, name), calls, name)) { CollectedExactly(t, calls, name); }
    } else {
      var call := calls[0];
      OnePasses(t, call);
      if Perform(t, call).1 == Passed {
        PerformKeepsWellMarked(t, call);
        var u := Perform(t, call).0;
        PassesExactly(u, calls[1..]);
        var name :| !WellMarked(Collected(Lookup(u, name), calls[1..], name));
        OneCollected(t, call, name);
        CollectedFirst(Lookup(t, name), calls, name);
      } else {
        CollectedFirst(Lookup(t, call.name), calls, call.name);
        if WellMarked(Collected(Lookup(t, call.name), calls, call.name)) {
          PartWellMarked(With(Lookup(t, call.name), call, call.name), calls[1..], call.name);
        }
      }
    }
  }

  lemma {:induction false} PartWellMarked(r: Record, calls: seq<Call>, name: string)
    requires WellMarked(Collected(r, calls, name))
    ensures WellMarked(r)
  {
    var s := Collected(r, calls, name);
    assert s.fields[..|r.fields|] == r.fields && s.ignored[..|r.ignored|] == r.ignored;
    assert s.swapped[..|r.swapped|] == r.swapped;
    assert Names(r.ignored) <= Names(s.ignored) && Names(r.swapped) <= Names(s.swapped);
  }

  /** The call is for `name`; a comment without marks is for nobody. */
  predicate IsFor(call: Call, name: string) { call.name == name && (call.AddMarks? ==> call.marks != []) }

  /** A name is in the table exactly when some call was for it. */
  lemma {:induction false} NamedExactly(t: Table, calls: seq<Call>, name: string)
    requires PerformAll(t, calls).1 == Passed
    ensures name in PerformAll(t, calls).0 <==> name in t || exists call :: call in calls && IsFor(call, name)
    decreases |calls|
  {
    if calls != [] {
      OneNamed(t, calls[0], name);
      NamedExactly(Perform(t, calls[0]).0, calls[1..], name);
      assert forall call :: call in calls <==> call == calls[0] || call in calls[1..];
    }
  }

  lemma {:induction false} OneNamed(t: Table, call: Call, name: string)
    ensures name in Perform(t, call).0 <==> name in t || IsFor(call, name)
  {
    if call.AddMarks? { MarksNamed(t, call.name, call.kind, call.marks, name); }
  }

  lemma {:induction false} MarksNamed(t: Table, name: string, kind: Kind, marks: seq<Field>, other: string)
    ensures other in MarksAdded(t, name, kind, marks).0 <==> other in t || (other == name && marks != [])
    decreases |marks|
  {
    if marks != [] && MarkAdded(t, name, kind, marks[0]).1 == Passed {
      MarksNamed(MarkAdded(t, name, kind, marks[0]).0, name, kind, marks[1..], other);
    }
  }

  lemma {:induction false} Overwritten(t: Table, name: string, r: Record, q: Record)
    ensures t[name := r][name := q] == t[name := q]
  {
  }

  // ---- The objects ----

  class Reflection {
    var fields: seq<Field>
    var ignored: seq<Field>
    var swapped: seq<Field>

    constructor ()
      ensures Value() == EMPTY
    {
      fields, ignored, swapped := [], [], [];
    }

    ghost function Value(): Record
      reads this
    {
      Record(fields, ignored, swapped)
    }

    method AddField(f: Field) returns (end: End)
      modifies this
      ensures (Value(), end) == WithField(old(Value()), f)
    {
      if f in fields { return Asserted; }
      fields := fields + [f];
      return Passed;
    }

    method AddMark(kind: Kind, f: Field) returns (end: End)
      modifies this
      ensures (Value(), end) == WithMark(old(Value()), kind, f)
    {
      if kind == Ignore {
        if f in ignored { return Asserted; }
        if f in swapped { return Asserted; }
        ignored := ignored + [f];
      } else {
        if f in swapped { return Misformatted; }
        if f in ignored { return Asserted; }
        swapped := swapped + [f];
      }
      return Passed;
    }
  }

  class Collection {
    var classes: map<string, Reflection>

    ghost predicate Valid()
      reads this
    {
      forall m, n :: m in classes && n in classes && m != n ==> classes[m] != classes[n]
    }

    ghost function View(): Table
      reads this, classes.Values
    {
      map n | n in classes :: classes[n].Value()
    }

    constructor ()
      ensures Valid() && View() == map[]
    {
      classes := map[];
    }

    method FindOrAdd(name: string) returns (r: Reflection)
      requires Valid()
      modifies this
      ensures Valid() && name in classes && classes[name] == r
      ensures r.Value() == Lookup(old(View()), name)
      ensures View() == old(View())[name := Lookup(old(View()), name)]
      ensures forall n <- classes :: classes[n] in old(classes.Values) || fresh(classes[n])
    {
      if name !in classes {
        var added := new Reflection();
        classes := classes[name := added];
      }
      r := classes[name];
    }

    method AddField(name: string, f: Field) returns (end: End)
      requires Valid()
      modifies this, classes.Values
      ensures Valid() && (View(), end) == FieldAdded(old(View()), name, f)
      ensures forall n <- classes :: classes[n] in old(classes.Values) || fresh(classes[n])
    {
      var r := FindOrAdd(name);
      ghost var before := View();
      end := r.AddField(f);
      assert View() == before[name := r.Value()];
      Overwritten(old(View()), name, Lookup(old(View()), name), r.Value());
    }

    method AddMark(name: string, kind: Kind, f: Field) returns (end: End)
      requires Valid()
      modifies this, classes.Values
      ensures Valid() && (View(), end) == MarkAdded(old(View()), name, kind, f)
      ensures forall n <- classes :: classes[n] in old(classes.Values) || fresh(classes[n])
    {
      var r := FindOrAdd(name);
      ghost var before := View();
      end := r.AddMark(kind, f);
      assert View() == before[name := r.Value()];
      Overwritten(old(View()), name, Lookup(old(View()), name), r.Value());
    }

    method AddIgnoreSwaps(name: string, kind: Kind, marks: seq<Field>) returns (end: End)
      requires Valid()
      modifies this, classes.Values
      ensures Valid() && (View(), end) == MarksAdded(old(View()), name, kind, marks)
    {
      ghost var start := View();
      var i := 0;
      while i < |marks|
        invariant 0 <= i <= |marks| && Valid()
        invariant forall n <- classes :: classes[n] in old(classes.Values) || fresh(classes[n])
        invariant MarksAdded(start, name, kind, marks) == MarksAdded(View(), name, kind, marks[i..])
      {
        assert marks[i..][0] == marks[i] && marks[i..][1..] == marks[i+1..];
        var added := AddMark(name, kind, marks[i]);
        if added != Passed { return added; }
        i := i + 1;
      }
      return Passed;
    }
  }
}
