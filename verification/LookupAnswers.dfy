/** What find_class answers: through children, then from alias to alias, and at last through a base. */
module LookupAnswers {
  import opened Sequences
  import opened Orbits
  import opened Lookup
  import opened LookupAliases

  // ---- One call ----

  /** One word: a child of that name, else what the alias leads to, else a child of the base, else nothing. */
  lemma {:induction false} WordAnswer(w: World, x: ScopeId, name: string, depth: nat)
    requires Valid(w) && x < |w| && depth > 0
    ensures var r, here := Resolve(w, Config(x, name, []), depth), w[x];
            if name in here.children then r == Found(Some(here.children[name]))
            else if name in here.usings then r == Resolve(w, Parsed(x, here.usings[name]), depth - 1)
            else if here.inherit.Some? && name in w[here.inherit.value].children
              then r == Found(Some(w[here.inherit.value].children[name]))
            else r == Found(None)
  {
  }

  /** A qualified name whose first component is no child finds nothing. */
  lemma {:induction false} StrayAnswer(w: World, c: Config, depth: nat)
    requires Valid(w) && c.scope < |w| && depth > 0 && c.rest != [] && c.first !in w[c.scope].children
    ensures Resolve(w, c, depth) == Found(None)
  {
    InheritedBranchDead(w, c);
  }

  ghost function Path(c: Config): seq<string> { [c.first] + c.rest }

  lemma {:induction false} PathOnward(c: Config, x: ScopeId, k: nat)
    requires 0 < k <= |c.rest|
    ensures var d := Onward(c, x);
            && Path(c)[..k][1..] == Path(d)[..k-1] && Path(d)[k-1] == Path(c)[k] && Path(d)[k..] == Path(c)[k+1..]
            && |d.rest| == |c.rest| - 1
  {
    assert Path(c)[1..] == Path(Onward(c, x));
  }

  lemma {:induction false} FollowedOne(w: World, c: Config, k: nat, y: ScopeId)
    requires 0 < k <= |c.rest| && Follow(w, c.scope, Path(c)[..k]) == Some(y)
    ensures Below(w, c).Some? && Step(w, c) == Go(Below(w, c).value)
    ensures Follow(w, Below(w, c).value.scope, Path(Below(w, c).value)[..k-1]) == Some(y)
  {
    assert Path(c)[..k][0] == c.first;
    PathOnward(c, Child(w, c.scope, c.first).value, k);
  }

  /** The first components lead through children to `y`: the rest is asked there. */
  lemma {:induction false} FollowedAnswer(w: World, c: Config, k: nat, y: ScopeId, depth: nat)
    requires k <= |c.rest| < depth && Follow(w, c.scope, Path(c)[..k]) == Some(y)
    ensures Resolve(w, c, depth) == Resolve(w, Config(y, Path(c)[k], Path(c)[k+1..]), depth - k)
    decreases k
  {
    if k == 0 {
      assert Path(c)[1..] == c.rest;
    } else {
      var d := Below(w, c).value;
      FollowedOne(w, c, k, y);
      PathOnward(c, d.scope, k);
      FollowedAnswer(w, d, k - 1, y, depth - 1);
    }
  }

  // ---- The whole lookup ----

  /** The place where a lookup ends: where the children end and no alias goes on. */
  ghost predicate EndsAt(w: World, c: Config, d: Config) {
    match AliasMet(w, c)
    case None => d == Stop(w, c)
    case Some(a) => exists n: nat, b :: IsLast(Hop(w), a, n, b) && d == Stop(w, Target(w, b))
  }

  /** The answer there: the child of that name, or else the base's. */
  ghost function AnswerAt(w: World, d: Config): Option<ScopeId>
    requires Valid(w)
  {
    if d.scope >= |w| || d.rest != [] then None
    else
      var here := w[d.scope];
      if d.first in here.children then Some(here.children[d.first])
      else if here.inherit.Some? && d.first in w[here.inherit.value].children
        then Some(w[here.inherit.value].children[d.first])
      else None
  }

  lemma {:induction false} StopIsStop(w: World, c: Config)
    ensures Below(w, Stop(w, c)) == None
    decreases |c.rest|
  {
    if Below(w, c).Some? { StopIsStop(w, Below(w, c).value); }
  }

  /** No child leads on and there is no alias: the call answers. */
  lemma {:induction false} HereAnswer(w: World, c: Config)
    requires Valid(w) && Below(w, c) == None && AliasMet(w, c) == None
    ensures Step(w, c) == Done(AnswerAt(w, c))
  {
    if c.rest != [] { InheritedBranchDead(w, c); }
  }

  lemma {:induction false} BelowEnds(w: World, c: Config, d: Config)
    requires Below(w, c).Some? && EndsAt(w, c, d)
    ensures Step(w, c) == Go(Below(w, c).value) && EndsAt(w, Below(w, c).value, d)
  {
    BelowStays(w, w, c);
  }

  lemma {:induction false} AliasHere(w: World, c: Config)
    requires Below(w, c) == None && AliasMet(w, c).Some?
    ensures AliasMet(w, c) == Some(c) && Step(w, c) == Go(Target(w, c)) && AliasMet(w, Target(w, c)) == Hop(w)(c)
  {
  }

  lemma {:induction false} AliasEnds(w: World, c: Config, d: Config)
    requires AliasMet(w, c) == Some(c) && AliasMet(w, Target(w, c)) == Hop(w)(c) && EndsAt(w, c, d)
    ensures EndsAt(w, Target(w, c), d)
  {
    var n: nat, b :| IsLast(Hop(w), c, n, b) && d == Stop(w, Target(w, b));
    LastAfterFirst(Hop(w), c, n, b);
    if n > 0 { assert IsLast(Hop(w), Hop(w)(c).value, n - 1, b); }
  }

  /** One call is at the end, or gets nearer to it. */
  lemma {:induction false} CallEnds(w: World, c: Config, d: Config)
    requires Valid(w) && EndsAt(w, c, d)
    ensures match Step(w, c)
            case Done(answer) => answer == AnswerAt(w, d)
            case Go(next) => EndsAt(w, next, d)
  {
    if Below(w, c).Some? {
      BelowEnds(w, c, d);
    } else if AliasMet(w, c).Some? {
      AliasHere(w, c);
      AliasEnds(w, c, d);
    } else {
      HereAnswer(w, c);
    }
  }

  /** Whatever holds `near` stays so from call to call, until the answer is given. */
  ghost predicate LeadsTo(w: World, near: Config -> bool, answer: Option<ScopeId>) {
    forall c :: near(c) ==> if Step(w, c).Go? then near(Step(w, c).next) else Step(w, c).answer == answer
  }

  lemma {:induction false} NearAnswers(w: World, near: Config -> bool, answer: Option<ScopeId>, c: Config, depth: nat)
    requires near(c) && LeadsTo(w, near, answer)
    ensures Resolve(w, c, depth) == Exhausted || Resolve(w, c, depth) == Found(answer)
    decreases depth
  {
    if depth > 0 && Step(w, c).Go? { NearAnswers(w, near, answer, Step(w, c).next, depth - 1); }
  }

  /** A lookup that ends answers what is found at its end, given depth enough. */
  lemma {:induction false} EndAnswers(w: World, c: Config, d: Config, depth: nat)
    requires Valid(w) && EndsAt(w, c, d)
    ensures Resolve(w, c, depth) == Exhausted || Resolve(w, c, depth) == Found(AnswerAt(w, d))
  {
    var near := (e: Config) => EndsAt(w, e, d);
    forall e | near(e)
      ensures if Step(w, e).Go? then near(Step(w, e).next) else Step(w, e).answer == AnswerAt(w, d)
    {
      CallEnds(w, e, d);
    }
    NearAnswers(w, near, AnswerAt(w, d), c, depth);
  }

  lemma {:induction false} EndsExists(w: World, c: Config) returns (d: Config)
    requires Valid(w) && !NeverEnds(w, c)
    ensures EndsAt(w, c, d)
  {
    d := Stop(w, c);
    if AliasMet(w, c).Some? {
      EndsExactly(w, c);
      var a := AliasMet(w, c).value;
      var k, b := LastExists(Hop(w), a, |Aliases(w)|);
      d := Stop(w, Target(w, b));
    }
  }

  /** The whole answer, for any name in any scope: unless it never ends, the lookup comes to one place, and once
      the depth is enough its answer is what that place has: a child, or else a child of its base. */
  lemma {:induction false} AnswerExactly(w: World, c: Config, depth: nat)
    requires Valid(w) && Resolve(w, c, depth).Found?
    ensures exists d :: EndsAt(w, c, d) && Resolve(w, c, depth) == Found(AnswerAt(w, d))
  {
    var d := EndsExists(w, c);
    EndAnswers(w, c, d, depth);
  }
}
