/** Reading the scopes of a file in order, and what later reading can change about the answers of find_class. */
module LookupReading {
  import opened Sequences
  import opened EnumScan
  import opened Scopes
  import opened Lookup

  // ---- Reading ----

  /** The scopes so far, and those being read, the innermost last. */
  datatype Reading = Reading(w: World, open: seq<ScopeId>)

  function Start(): Reading { Reading([Scope("", true, map[], map[], None)], [0]) }

  function Top(r: Reading): ScopeId
    requires r.open != []
  {
    r.open[|r.open| - 1]
  }

  /** The next scope begins, behind the aliases found on the way to it; or the innermost one ends. */
  datatype Op = Enter(isClass: bool, name: string, base: Option<string>, depth: nat, aliases: seq<(string, string)>)
              | Leave

  /** The base is looked up in the scopes around the new one, from the inside out. */
  ghost function BaseFound(w: World, open: seq<ScopeId>, base: string, depth: nat): Result
    decreases |open|
  {
    if open == [] then Found(None)
    else
      var n := |open| - 1;
      var r := Resolve(w, Parsed(open[n], base), depth);
      if r == Found(None) then BaseFound(w, open[..n], base, depth) else r
  }

  ghost function Base(r: Reading, op: Op): Result
    requires op.Enter?
  {
    if op.base.Some? then BaseFound(r.w, r.open, op.base.value, op.depth) else Found(None)
  }

  /** Only classes hold classes and aliases, and only classes have a base. */
  ghost predicate Offered(r: Reading, op: Op) {
    match op
    case Enter(isClass, name, base, _, aliases) =>
      && r.open != [] && Top(r) < |r.w|
      && (if isClass then r.w[Top(r)].isClass && AllWord(name) else base == None)
      && (aliases != [] ==> r.w[Top(r)].isClass)
      && (forall a <- aliases :: AllWord(a.0))
    case Leave => |r.open| > 1
  }

  /** The interpreter has not given up on the base. */
  ghost predicate Proper(r: Reading, op: Op) { Offered(r, op) && (op.Enter? ==> Base(r, op).Found?) }

  function WithAliases(m: map<string, string>, aliases: seq<(string, string)>): map<string, string>
    decreases |aliases|
  {
    if aliases == [] then m else WithAliases(m[aliases[0].0 := aliases[0].1], aliases[1..])
  }

  /** A scope begins inside the innermost one, which has been given its aliases. */
  function Entered(r: Reading, usings: map<string, string>, scope: Scope): Reading
    requires r.open != [] && Top(r) < |r.w|
  {
    Reading(r.w[Top(r) := r.w[Top(r)].(usings := usings)] + [scope], r.open + [|r.w|])
  }

  /** A class is added under a name that is still free. */
  function WithChild(w: World, parent: ScopeId, child: ScopeId): World
    requires parent < |w| && child < |w|
  {
    if w[parent].isClass && w[child].isClass && w[child].name !in w[parent].children
    then w[parent := w[parent].(children := w[parent].children[w[child].name := child])]
    else w
  }

  /** The innermost scope ends, and is added to the one around it. */
  function Left(r: Reading): Reading
    requires |r.open| > 1 && Listed(r)
  {
    var n := |r.open| - 1;
    Reading(WithChild(r.w, r.open[n-1], r.open[n]), r.open[..n])
  }

  /** The base is looked up before the aliases are added. */
  ghost function Perform(r: Reading, op: Op): Reading
    requires Nested(r) && Proper(r, op)
  {
    match op
    case Enter(isClass, name, _, _, aliases) =>
      Entered(r, WithAliases(r.w[Top(r)].usings, aliases), Scope(name, isClass, map[], map[], Base(r, op).answer))
    case Leave => Left(r)
  }

  // ---- What reading keeps ----

  ghost predicate Closed(r: Reading, x: ScopeId) { x < |r.w| && x !in r.open }

  predicate Listed(r: Reading) {
    && r.open != [] && r.open[0] == 0
    && (forall i :: 0 <= i < |r.open| ==> r.open[i] < |r.w|)
    && (forall i, j :: 0 <= i < j < |r.open| ==> r.open[i] != r.open[j])
  }

  ghost predicate Named(w: World) { forall x :: 0 < x < |w| && w[x].isClass ==> AllWord(w[x].name) }

  /** Children and bases have been read to their ends. */
  ghost predicate Finished(r: Reading) {
    && (forall x, n :: 0 <= x < |r.w| && n in r.w[x].children ==> Closed(r, r.w[x].children[n]))
    && (forall x :: 0 <= x < |r.w| && r.w[x].inherit.Some? ==> Closed(r, r.w[x].inherit.value))
  }

  ghost predicate Nested(r: Reading) { Listed(r) && Valid(r.w) && Named(r.w) && Finished(r) }

  /** What is read later leaves alone every scope that has been read. */
  ghost predicate Later(r: Reading, t: Reading) {
    Grows(r.w, t.w) && forall x: ScopeId :: Closed(r, x) ==> Closed(t, x) && t.w[x] == r.w[x]
  }

  lemma {:induction false} AliasesKnown(m: map<string, string>, aliases: seq<(string, string)>)
    requires (forall n <- m :: AllWord(n)) && forall a <- aliases :: AllWord(a.0)
    ensures forall n <- WithAliases(m, aliases) :: AllWord(n)
    decreases |aliases|
  {
    if aliases != [] {
      assert aliases[0] in aliases && forall a <- aliases[1..] :: a in aliases;
      AliasesKnown(m[aliases[0].0 := aliases[0].1], aliases[1..]);
    }
  }

  lemma {:induction false} DoneClosed(r: Reading, c: Config)
    requires Finished(r)
    ensures Child(r.w, c.scope, c.first).Some? ==> Closed(r, Child(r.w, c.scope, c.first).value)
    ensures Inherited(r.w, c.scope, c.first).Some? ==> Closed(r, Inherited(r.w, c.scope, c.first).value)
  {
  }

  /** Whatever find_class finds has been read to its end. */
  lemma {:induction false} AnswerClosed(r: Reading, c: Config, depth: nat)
    requires Finished(r) && Resolve(r.w, c, depth).Found? && Resolve(r.w, c, depth).answer.Some?
    ensures Closed(r, Resolve(r.w, c, depth).answer.value)
    decreases depth
  {
    if Step(r.w, c).Go? { AnswerClosed(r, Step(r.w, c).next, depth - 1); } else { DoneClosed(r, c); }
  }

  lemma {:induction false} BaseClosed(r: Reading, open: seq<ScopeId>, base: string, depth: nat)
    requires Nested(r)
    ensures var b := BaseFound(r.w, open, base, depth); b.Found? && b.answer.Some? ==> Closed(r, b.answer.value)
    decreases |open|
  {
    if open != [] {
      var n := |open| - 1;
      if Resolve(r.w, Parsed(open[n], base), depth) == Found(None) {
        BaseClosed(r, open[..n], base, depth);
      } else if Resolve(r.w, Parsed(open[n], base), depth).Found? {
        AnswerClosed(r, Parsed(open[n], base), depth);
      }
    }
  }

  /** A scope that can begin: it holds nothing yet, and its base has been read. */
  ghost predicate Begins(r: Reading, scope: Scope) {
    && scope.children == map[] && scope.usings == map[]
    && (if scope.isClass then AllWord(scope.name) else scope.inherit == None)
    && (scope.inherit.Some? ==> Closed(r, scope.inherit.value))
  }

  lemma {:induction false} EnteredValid(r: Reading, usings: map<string, string>, scope: Scope)
    requires Nested(r) && Begins(r, scope) && forall n <- usings :: AllWord(n)
    requires usings != map[] ==> r.w[Top(r)].isClass
    ensures Valid(Entered(r, usings, scope).w)
  {
    ValidWithUsings(r.w, Top(r), usings);
    ValidPlus(r.w[Top(r) := r.w[Top(r)].(usings := usings)], scope);
  }

  lemma {:induction false} ValidWithUsings(w: World, x: ScopeId, usings: map<string, string>)
    requires Valid(w) && x < |w| && (forall n <- usings :: AllWord(n)) && (usings != map[] ==> w[x].isClass)
    ensures Valid(w[x := w[x].(usings := usings)])
  {
  }

  lemma {:induction false} ValidPlus(w: World, scope: Scope)
    requires Valid(w) && scope.children == map[] && scope.usings == map[]
    requires scope.inherit.Some? ==> scope.isClass && scope.inherit.value < |w|
    ensures Valid(w + [scope])
  {
  }

  lemma {:induction false} EnteredListed(r: Reading, usings: map<string, string>, scope: Scope)
    requires Listed(r) && Named(r.w) && Begins(r, scope)
    ensures Listed(Entered(r, usings, scope)) && Named(Entered(r, usings, scope).w)
  {
  }

  lemma {:induction false} EnteredFinished(r: Reading, usings: map<string, string>, scope: Scope)
    requires Nested(r) && Begins(r, scope)
    ensures var t := Entered(r, usings, scope); Finished(t) && Later(r, t)
  {
    var t := Entered(r, usings, scope);
    forall x: ScopeId | Closed(r, x) ensures Closed(t, x) && t.w[x] == r.w[x] { assert x != Top(r); }
  }

  lemma {:induction false} EnterBegins(r: Reading, op: Op)
    requires Nested(r) && Proper(r, op) && op.Enter?
    ensures Begins(r, Scope(op.name, op.isClass, map[], map[], Base(r, op).answer))
  {
    if op.base.Some? { BaseClosed(r, r.open, op.base.value, op.depth); }
  }

  lemma {:induction false} EnterKeeps(r: Reading, op: Op)
    requires Nested(r) && Proper(r, op) && op.Enter?
    ensures Nested(Perform(r, op)) && Later(r, Perform(r, op))
  {
    var usings := WithAliases(r.w[Top(r)].usings, op.aliases);
    var scope := Scope(op.name, op.isClass, map[], map[], Base(r, op).answer);
    AliasesKnown(r.w[Top(r)].usings, op.aliases);
    EnterBegins(r, op);
    EnteredListed(r, usings, scope);
    EnteredValid(r, usings, scope);
    EnteredFinished(r, usings, scope);
  }

  lemma {:induction false} LeftValid(r: Reading)
    requires Nested(r) && |r.open| > 1
    ensures var t := Left(r); Valid(t.w) && Named(t.w) && Grows(r.w, t.w)
  {
    var n := |r.open| - 1;
    WithChildValid(r.w, r.open[n-1], r.open[n]);
  }

  lemma {:induction false} WithChildValid(w: World, parent: ScopeId, child: ScopeId)
    requires Valid(w) && Named(w) && parent < |w| && 0 < child < |w|
    ensures var v := WithChild(w, parent, child); Valid(v) && Named(v) && Grows(w, v)
  {
  }

  lemma {:induction false} LeftCloses(r: Reading, x: ScopeId)
    requires Listed(r) && |r.open| > 1
    ensures Closed(Left(r), x) <==> Closed(r, x) || x == Top(r)
  {
  }

  lemma {:induction false} LeaveKeeps(r: Reading)
    requires Nested(r) && |r.open| > 1
    ensures Nested(Left(r)) && Later(r, Left(r))
  {
    LeftValid(r);
    forall x: ScopeId ensures Closed(Left(r), x) <==> Closed(r, x) || x == Top(r) { LeftCloses(r, x); }
  }

  lemma {:induction false} PerformKeeps(r: Reading, op: Op)
    requires Nested(r) && Proper(r, op)
    ensures Nested(Perform(r, op)) && Later(r, Perform(r, op))
  {
    if op.Enter? { EnterKeeps(r, op); } else { LeaveKeeps(r); }
  }

  ghost predicate ProperAll(r: Reading, ops: seq<Op>)
    requires Nested(r)
    decreases |ops|
  {
    ops == [] || (Proper(r, ops[0]) && (PerformKeeps(r, ops[0]); ProperAll(Perform(r, ops[0]), ops[1..])))
  }

  ghost function PerformAll(r: Reading, ops: seq<Op>): Reading
    requires Nested(r) && ProperAll(r, ops)
    decreases |ops|
  {
    if ops == [] then r else PerformKeeps(r, ops[0]); PerformAll(Perform(r, ops[0]), ops[1..])
  }

  /** However reading goes on, scopes that have been read stay as they are, and the others lose nothing. */
  lemma {:induction false} ReadingKeeps(r: Reading, ops: seq<Op>)
    requires Nested(r) && ProperAll(r, ops)
    ensures Nested(PerformAll(r, ops)) && Later(r, PerformAll(r, ops))
    decreases |ops|
  {
    if ops != [] {
      PerformKeeps(r, ops[0]);
      ReadingKeeps(Perform(r, ops[0]), ops[1..]);
      LaterOn(r, Perform(r, ops[0]), PerformAll(r, ops));
    }
  }

  lemma {:induction false} LaterOn(r: Reading, t: Reading, u: Reading)
    requires Later(r, t) && Later(t, u)
    ensures Later(r, u)
  {
  }

  /** The classes that end inside `x` under `name`, in order. */
  ghost function Offers(r: Reading, ops: seq<Op>, x: ScopeId, name: string): seq<ScopeId>
    requires Nested(r) && ProperAll(r, ops)
    decreases |ops|
  {
    if ops == [] then []
    else
      PerformKeeps(r, ops[0]);
      var rest := Offers(Perform(r, ops[0]), ops[1..], x, name);
      if ops[0] == Leave && r.open[|r.open| - 2] == x && r.w[Top(r)].isClass && r.w[Top(r)].name == name
      then [Top(r)] + rest else rest
  }

  /** The child under a name is the first class read under it. */
  lemma {:induction false} FirstOfferStays(r: Reading, ops: seq<Op>, x: ScopeId, name: string)
    requires Nested(r) && ProperAll(r, ops) && x < |r.w| && r.w[x].isClass
    ensures var t := PerformAll(r, ops);
            var offers := Offers(r, ops, x, name);
            && x < |t.w|
            && (name in t.w[x].children <==> name in r.w[x].children || offers != [])
            && (name in t.w[x].children ==>
                  t.w[x].children[name] == if name in r.w[x].children then r.w[x].children[name] else offers[0])
    decreases |ops|
  {
    if ops != [] {
      var u := Perform(r, ops[0]);
      PerformKeeps(r, ops[0]);
      ReadingKeeps(u, ops[1..]);
      FirstOfferStays(u, ops[1..], x, name);
    }
  }

  // ---- What a scope begins with ----

  /** Scope open[k] is the innermost that knows the base, or gives up on it. */
  ghost predicate Innermost(w: World, open: seq<ScopeId>, base: string, depth: nat, k: int) {
    && 0 <= k < |open| && Resolve(w, Parsed(open[k], base), depth) != Found(None)
    && forall i :: k < i < |open| ==> Resolve(w, Parsed(open[i], base), depth) == Found(None)
  }

  /** The base is what the innermost scope that knows it answers; without one there is none. */
  lemma {:induction false} BaseExactly(w: World, open: seq<ScopeId>, base: string, depth: nat)
    ensures forall k :: Innermost(w, open, base, depth, k) ==>
              BaseFound(w, open, base, depth) == Resolve(w, Parsed(open[k], base), depth)
    ensures (forall k :: 0 <= k < |open| ==> Resolve(w, Parsed(open[k], base), depth) == Found(None)) ==>
              BaseFound(w, open, base, depth) == Found(None)
  {
    forall k | Innermost(w, open, base, depth, k)
      ensures BaseFound(w, open, base, depth) == Resolve(w, Parsed(open[k], base), depth)
    {
      BaseInnermost(w, open, base, depth, k);
    }
    if forall k :: 0 <= k < |open| ==> Resolve(w, Parsed(open[k], base), depth) == Found(None) {
      BaseUnknown(w, open, base, depth);
    }
  }

  lemma {:induction false} BaseInnermost(w: World, open: seq<ScopeId>, base: string, depth: nat, k: int)
    requires Innermost(w, open, base, depth, k)
    ensures BaseFound(w, open, base, depth) == Resolve(w, Parsed(open[k], base), depth)
    decreases |open|
  {
    if k < |open| - 1 {
      InnermostFront(w, open, base, depth, k);
      BaseInnermost(w, open[..|open| - 1], base, depth, k);
    }
  }

  lemma {:induction false} BaseUnknown(w: World, open: seq<ScopeId>, base: string, depth: nat)
    requires forall k :: 0 <= k < |open| ==> Resolve(w, Parsed(open[k], base), depth) == Found(None)
    ensures BaseFound(w, open, base, depth) == Found(None)
    decreases |open|
  {
    if open != [] {
      var front := open[..|open| - 1];
      assert forall k :: 0 <= k < |front| ==> front[k] == open[k];
      BaseUnknown(w, front, base, depth);
    }
  }

  lemma {:induction false} InnermostFront(w: World, open: seq<ScopeId>, base: string, depth: nat, k: int)
    requires Innermost(w, open, base, depth, k) && k < |open| - 1
    ensures Resolve(w, Parsed(open[|open| - 1], base), depth) == Found(None)
    ensures Innermost(w, open[..|open| - 1], base, depth, k) && open[..|open| - 1][k] == open[k]
  {
    var front := open[..|open| - 1];
    assert forall i :: 0 <= i < |front| ==> front[i] == open[i];
  }

  /** Pair `i` is the last one that gives `name` a target. */
  predicate LastFor(aliases: seq<(string, string)>, name: string, i: int) {
    0 <= i < |aliases| && aliases[i].0 == name && forall j :: i < j < |aliases| ==> aliases[j].0 != name
  }

  /** The last alias for a name counts; a name without one keeps what it had. */
  lemma {:induction false} AliasesExactly(m: map<string, string>, aliases: seq<(string, string)>, name: string)
    ensures var v := WithAliases(m, aliases);
            && (forall i :: LastFor(aliases, name, i) ==> name in v && v[name] == aliases[i].1)
            && ((forall i :: 0 <= i < |aliases| ==> aliases[i].0 != name) ==>
                  (name in v <==> name in m) && (name in m ==> v[name] == m[name]))
    decreases |aliases|
  {
    if aliases != [] {
      var a, rest := aliases[0], aliases[1..];
      AliasesExactly(m[a.0 := a.1], rest, name);
      assert forall i :: 0 <= i < |rest| ==> rest[i] == aliases[i+1];
      forall i | LastFor(aliases, name, i) ensures WithAliases(m, aliases)[name] == aliases[i].1 {
        if i > 0 { assert LastFor(rest, name, i - 1); }
      }
    }
  }

  /** A class begins with the base that the scopes around it knew before the aliases in front of it were added. */
  lemma {:induction false} EnterExactly(r: Reading, op: Op, k: int)
    requires Nested(r) && Proper(r, op) && op.Enter?
    ensures var t := Perform(r, op);
            && |t.w| == |r.w| + 1 && t.w[|r.w|].name == op.name && t.w[|r.w|].children == map[]
            && HasBase(r, op, k, t.w[|r.w|].inherit)
  {
    if op.base.Some? {
      BaseExactly(r.w, r.open, op.base.value, op.depth);
      if Perform(r, op).w[|r.w|].inherit.Some? { InnermostExists(r.w, r.open, op.base.value, op.depth); }
    }
  }

  ghost predicate HasBase(r: Reading, op: Op, k: int, inherit: Option<ScopeId>)
    requires op.Enter?
  {
    match op.base
    case None => inherit == None
    case Some(base) =>
      && (Innermost(r.w, r.open, base, op.depth, k) ==>
            Resolve(r.w, Parsed(r.open[k], base), op.depth) == Found(inherit))
      && (inherit.Some? ==> exists i :: Innermost(r.w, r.open, base, op.depth, i))
  }

  lemma {:induction false} InnermostExists(w: World, open: seq<ScopeId>, base: string, depth: nat)
    requires BaseFound(w, open, base, depth) != Found(None)
    ensures exists k :: Innermost(w, open, base, depth, k)
    decreases |open|
  {
    var n := |open| - 1;
    if Resolve(w, Parsed(open[n], base), depth) != Found(None) {
      assert Innermost(w, open, base, depth, n);
    } else {
      InnermostExists(w, open[..n], base, depth);
      var k :| Innermost(w, open[..n], base, depth, k);
      forall i | k < i < |open| ensures Resolve(w, Parsed(open[i], base), depth) == Found(None) {
        if i < n { assert open[..n][i] == open[i]; }
      }
      assert open[..n][k] == open[k];
      assert Innermost(w, open, base, depth, k);
    }
  }

  // ---- What later reading can change ----

  lemma {:induction false} ClosedStep(r: Reading, t: Reading, c: Config)
    requires Finished(r) && Later(r, t) && Closed(r, c.scope)
    ensures Step(t.w, c) == Step(r.w, c)
    ensures Step(r.w, c).Go? ==> Closed(r, Step(r.w, c).next.scope)
  {
  }

  lemma {:induction false} SameStep(w: World, v: World, c: Config, depth: nat)
    requires depth > 0 && Step(v, c) == Step(w, c)
    requires Step(w, c).Go? ==> Resolve(v, Step(w, c).next, depth - 1) == Resolve(w, Step(w, c).next, depth - 1)
    ensures Resolve(v, c, depth) == Resolve(w, c, depth)
  {
  }

  /** A scope that has been read gives the same answers for good. */
  lemma {:induction false} ClosedStays(r: Reading, t: Reading, c: Config, depth: nat)
    requires Finished(r) && Later(r, t) && Closed(r, c.scope)
    ensures Resolve(t.w, c, depth) == Resolve(r.w, c, depth)
    decreases depth
  {
    if depth > 0 {
      ClosedStep(r, t, c);
      if Step(r.w, c).Go? { ClosedStays(r, t, Step(r.w, c).next, depth - 1); }
      SameStep(r.w, t.w, c, depth);
    }
  }

  /** So does any scope for a qualified name, once it has found a class. */
  lemma {:induction false} QualifiedStays(r: Reading, t: Reading, c: Config, depth: nat)
    requires Nested(r) && Later(r, t) && c.rest != []
    requires Resolve(r.w, c, depth).Found? && Resolve(r.w, c, depth).answer.Some?
    ensures Resolve(t.w, c, depth) == Resolve(r.w, c, depth)
  {
    QualifiedGoes(r.w, c, depth);
    BelowStays(r.w, t.w, c);
    BelowClosed(r, c);
    GoesStays(r, t, c, Below(r.w, c).value, depth);
  }

  lemma {:induction false} QualifiedGoes(w: World, c: Config, depth: nat)
    requires Valid(w) && c.rest != [] && Resolve(w, c, depth).Found? && Resolve(w, c, depth).answer.Some?
    ensures depth > 0 && Below(w, c).Some?
  {
    InheritedBranchDead(w, c);
  }

  lemma {:induction false} BelowClosed(r: Reading, c: Config)
    requires Finished(r)
    ensures Below(r.w, c).Some? ==> Closed(r, Below(r.w, c).value.scope)
  {
  }

  lemma {:induction false} GoesStays(r: Reading, t: Reading, c: Config, d: Config, depth: nat)
    requires Finished(r) && Later(r, t) && Closed(r, d.scope) && depth > 0
    requires Step(r.w, c) == Step(t.w, c) == Go(d)
    ensures Resolve(t.w, c, depth) == Resolve(r.w, c, depth)
  {
    ClosedStays(r, t, d, depth - 1);
  }

  ghost predicate Stays(r: Reading, c: Config, depth: nat)
    requires Nested(r)
  {
    forall ops :: ProperAll(r, ops) ==> Resolve(PerformAll(r, ops).w, c, depth) == Resolve(r.w, c, depth)
  }

  /** The name is one word and names no child of a scope that is being read. */
  ghost predicate Open(r: Reading, c: Config) { c.scope in r.open && c.rest == [] && !ByChildren(r.w, c) }

  /** Reading on can give `x` a child under a free name, other than any class that has been read. */
  lemma {:induction false} ChildComes(r: Reading, k: nat, name: string, answer: ScopeId) returns (ops: seq<Op>)
    requires Nested(r) && k < |r.open| && r.w[r.open[k]].isClass && AllWord(name)
    requires name !in r.w[r.open[k]].children && Closed(r, answer)
    ensures ProperAll(r, ops)
    ensures var v := PerformAll(r, ops).w;
            r.open[k] < |v| && name in v[r.open[k]].children && v[r.open[k]].children[name] != answer
    decreases |r.open| - k
  {
    if k == |r.open| - 1 {
      ops := ClassComes(r, name);
    } else {
      var u := Perform(r, Leave);
      PerformKeeps(r, Leave);
      if name in u.w[r.open[k]].children {
        ops := [];
      } else {
        ops := ChildComes(u, k, name, answer);
      }
      AfterOne(r, Leave, ops);
      ops := [Leave] + ops;
    }
  }

  lemma {:induction false} AfterOne(r: Reading, op: Op, ops: seq<Op>)
    requires Nested(r) && Proper(r, op) && Nested(Perform(r, op)) && ProperAll(Perform(r, op), ops)
    ensures ProperAll(r, [op] + ops) && PerformAll(r, [op] + ops) == PerformAll(Perform(r, op), ops)
  {
    assert ([op] + ops)[1..] == ops;
  }

  /** A class without a base, read to its end. */
  lemma {:induction false} ClassComes(r: Reading, name: string) returns (ops: seq<Op>)
    requires Nested(r) && r.w[Top(r)].isClass && AllWord(name) && name !in r.w[Top(r)].children
    ensures ProperAll(r, ops)
    ensures var v := PerformAll(r, ops).w;
            Top(r) < |v| && name in v[Top(r)].children && v[Top(r)].children[name] == |r.w|
  {
    var enter := Enter(true, name, None, 0, []);
    EnterPlain(r, name);
    EnterKeeps(r, enter);
    ClassLeaves(r, Perform(r, enter), name);
    EnterLeave(r, enter);
    ops := [enter] + [Leave];
  }

  lemma {:induction false} EnterLeave(r: Reading, op: Op)
    requires Nested(r) && Proper(r, op) && Nested(Perform(r, op)) && |Perform(r, op).open| > 1
    ensures ProperAll(r, [op] + [Leave]) && PerformAll(r, [op] + [Leave]) == Left(Perform(r, op))
  {
    LeaveAlone(Perform(r, op));
    AfterOne(r, op, [Leave]);
  }

  lemma {:induction false} LeaveAlone(r: Reading)
    requires Nested(r) && |r.open| > 1
    ensures ProperAll(r, [Leave]) && PerformAll(r, [Leave]) == Left(r)
  {
    LeaveKeeps(r);
    AfterOne(r, Leave, []);
    assert [Leave] + [] == [Leave];
  }

  lemma {:induction false} EnterPlain(r: Reading, name: string)
    requires Nested(r) && r.w[Top(r)].isClass && AllWord(name)
    ensures var enter := Enter(true, name, None, 0, []);
            && Proper(r, enter)
            && Perform(r, enter) == Entered(r, r.w[Top(r)].usings, Scope(name, true, map[], map[], None))
  {
  }

  lemma {:induction false} ClassLeaves(r: Reading, u: Reading, name: string)
    requires Nested(r) && r.w[Top(r)].isClass && name !in r.w[Top(r)].children && Nested(u)
    requires u == Entered(r, r.w[Top(r)].usings, Scope(name, true, map[], map[], None))
    ensures |u.open| > 1 && Nested(Left(u))
    ensures var v := Left(u).w;
            Top(r) < |v| && name in v[Top(r)].children && v[Top(r)].children[name] == |r.w|
  {
    LeaveKeeps(u);
  }

  lemma {:induction false} OpenIsFree(r: Reading, c: Config, depth: nat)
    requires Nested(r) && Open(r, c) && Resolve(r.w, c, depth).Found? && Resolve(r.w, c, depth).answer.Some?
    ensures r.w[c.scope].isClass && AllWord(c.first) && c.first !in r.w[c.scope].children && depth > 0
  {
  }

  /** An answer through an alias or a base, given for one word by a scope that is still being read, can be
      taken over by a child. */
  lemma {:induction false} TakenOver(r: Reading, c: Config, depth: nat) returns (ops: seq<Op>)
    requires Nested(r) && Open(r, c) && Resolve(r.w, c, depth).Found? && Resolve(r.w, c, depth).answer.Some?
    ensures ProperAll(r, ops)
    ensures var v := PerformAll(r, ops).w;
            && Child(v, c.scope, c.first).Some? && Resolve(v, c, depth) == Found(Child(v, c.scope, c.first))
            && Resolve(v, c, depth) != Resolve(r.w, c, depth)
  {
    AnswerClosed(r, c, depth);
    OpenIsFree(r, c, depth);
    var k: nat :| k < |r.open| && r.open[k] == c.scope;
    ops := ChildComes(r, k, c.first, Resolve(r.w, c, depth).answer.value);
  }

  /** A class that was found stays the answer however reading goes on exactly when the scope asked has been
      read, or the name is qualified, or children alone lead to the class. */
  lemma {:induction false} StaysExactly(r: Reading, c: Config, depth: nat)
    requires Nested(r) && c.scope < |r.w|
    requires Resolve(r.w, c, depth).Found? && Resolve(r.w, c, depth).answer.Some?
    ensures Stays(r, c, depth) <==> c.scope !in r.open || c.rest != [] || ByChildren(r.w, c)
  {
    if Open(r, c) {
      var ops := TakenOver(r, c, depth);
    } else {
      forall ops | ProperAll(r, ops) ensures Resolve(PerformAll(r, ops).w, c, depth) == Resolve(r.w, c, depth) {
        ReadingKeeps(r, ops);
        StaysAfter(r, PerformAll(r, ops), c, depth);
      }
    }
  }

  lemma {:induction false} StaysAfter(r: Reading, t: Reading, c: Config, depth: nat)
    requires Nested(r) && Later(r, t) && c.scope < |r.w| && !Open(r, c)
    requires Resolve(r.w, c, depth).Found? && Resolve(r.w, c, depth).answer.Some?
    ensures Resolve(t.w, c, depth) == Resolve(r.w, c, depth)
  {
    if c.scope !in r.open {
      ClosedStays(r, t, c, depth);
    } else if c.rest != [] {
      QualifiedStays(r, t, c, depth);
    } else {
      ByChildrenStays(r.w, t.w, c, depth);
    }
  }

  // ---- The scopes as they are read ----

  class Table {
    var scopes: World
    var open: seq<ScopeId>

    ghost function R(): Reading
      reads this
    {
      Reading(scopes, open)
    }

    constructor ()
      ensures R() == Start() && Nested(R())
    {
      scopes, open := [Scope("", true, map[], map[], None)], [0];
    }

    /** A scope begins; false if the lookup of its base is given up. */
    method Enter(isClass: bool, name: string, base: Option<string>, depth: nat, aliases: seq<(string, string)>)
        returns (ok: bool)
      requires Nested(R()) && Offered(R(), Op.Enter(isClass, name, base, depth, aliases))
      modifies this
      ensures ok <==> Proper(old(R()), Op.Enter(isClass, name, base, depth, aliases))
      ensures R() == if ok then Perform(old(R()), Op.Enter(isClass, name, base, depth, aliases)) else old(R())
      ensures Nested(R())
    {
      var found := Found(None);
      if base.Some? { found := FindBase(base.value, depth); }
      if found == Exhausted { return false; }
      EnterKeeps(R(), Op.Enter(isClass, name, base, depth, aliases));
      var top := open[|open| - 1];
      var here := scopes[top];
      var usings := AddUsings(here.usings, aliases);
      scopes := scopes[top := here.(usings := usings)] + [Scope(name, isClass, map[], map[], found.answer)];
      open := open + [|scopes| - 1];
      return true;
    }

    /** The innermost scope ends, and is added to the one around it. */
    method Leave()
      requires Nested(R()) && |open| > 1
      modifies this
      ensures R() == Perform(old(R()), Op.Leave) && Nested(R())
    {
      LeaveKeeps(R());
      var n := |open| - 1;
      var parent, child := open[n-1], open[n];
      if scopes[parent].isClass && scopes[child].isClass {
        var name, children := scopes[child].name, scopes[parent].children;
        if name !in children {
          scopes := scopes[parent := scopes[parent].(children := children[name := child])];
        }
      }
      open := open[..n];
    }

    /** The loop over the scopes around the new one. */
    method FindBase(base: string, depth: nat) returns (r: Result)
      requires Listed(R()) && Valid(scopes)
      ensures r == BaseFound(scopes, open, base, depth)
    {
      r := Found(None);
      ghost var all := BaseFound(scopes, open, base, depth);
      assert open[..|open|] == open;
      for i := |open| downto 0
        invariant r == Found(None) && all == BaseFound(scopes, open[..i], base, depth)
      {
        BaseFoundFrom(scopes, open, i, base, depth);
        r := FindClass(open[i], base, depth);
        if r != Found(None) { return; }
      }
    }

    method FindClass(scope: ScopeId, name: string, depth: nat) returns (r: Result)
      requires Valid(scopes) && scope < |scopes|
      ensures r == Resolve(scopes, Parsed(scope, name), depth)
      decreases depth
    {
      if depth == 0 { return Exhausted; }
      var here, loc := scopes[scope], FindText(name, "::", 0);
      if loc != -1 {
        r := FindQualified(scope, name, loc, depth);
      } else if name in here.children {
        return Found(Some(here.children[name]));
      } else if name in here.usings {
        r := FindClass(scope, here.usings[name], depth - 1);
      } else if here.inherit.Some? && name in scopes[here.inherit.value].children {
        return Found(Some(scopes[here.inherit.value].children[name]));
      } else {
        return Found(None);
      }
    }

    method FindQualified(scope: ScopeId, name: string, loc: nat, depth: nat) returns (r: Result)
      requires Valid(scopes) && scope < |scopes| && depth > 0 && loc == FindText(name, "::", 0)
      ensures r == Resolve(scopes, Parsed(scope, name), depth)
      decreases depth, 0
    {
      var here, child, left := scopes[scope], name[..loc], name[loc + 2..];
      ResolveQualified(scopes, scope, name, depth);
      if child in here.children {
        r := FindClass(here.children[child], left, depth - 1);
      } else if here.inherit.Some? && name in scopes[here.inherit.value].children {
        r := FindClass(scopes[here.inherit.value].children[name], left, depth - 1);
      } else {
        return Found(None);
      }
    }
  }

  lemma {:induction false} BaseFoundFrom(w: World, open: seq<ScopeId>, i: nat, base: string, depth: nat)
    requires i < |open|
    ensures var r := Resolve(w, Parsed(open[i], base), depth);
            BaseFound(w, open[..i+1], base, depth) ==
            if r == Found(None) then BaseFound(w, open[..i], base, depth) else r
  {
    assert open[..i+1][..i] == open[..i];
  }

  /** The loop over the aliases in front of a scope. */
  method AddUsings(usings: map<string, string>, aliases: seq<(string, string)>) returns (m: map<string, string>)
    ensures m == WithAliases(usings, aliases)
  {
    m := usings;
    assert aliases[0..] == aliases;
    for i := 0 to |aliases|
      invariant WithAliases(usings, aliases) == WithAliases(m, aliases[i..])
    {
      assert aliases[i..][0] == aliases[i] && aliases[i..][1..] == aliases[i+1..];
      m := m[aliases[i].0 := aliases[i].1];
    }
  }
}
