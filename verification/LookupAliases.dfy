/** When find_class ends: aliases that lead to one another in a circle. */
module LookupAliases {
  import opened Sequences
  import opened Orbits
  import opened Lookup

  ghost predicate NeverEnds(w: World, c: Config) { forall depth: nat :: Resolve(w, c, depth) == Exhausted }

  /** The alias that a lookup comes to once the children have led as far as they can. */
  ghost function AliasMet(w: World, c: Config): Option<Config> {
    var d := Stop(w, c);
    if d.rest == [] && Child(w, d.scope, d.first).None? && Alias(w, d.scope, d.first).Some? then Some(d) else None
  }

  /** The lookup of an alias's target, in the scope of the alias. */
  ghost function Target(w: World, a: Config): Config {
    if Alias(w, a.scope, a.first).Some? then Parsed(a.scope, Alias(w, a.scope, a.first).value) else a
  }

  /** From alias to alias: where the target of one leads. */
  ghost function Hop(w: World): Config -> Option<Config> {
    (a: Config) => AliasMet(w, Target(w, a))
  }

  ghost function Aliases(w: World): set<Config> {
    set x, n | 0 <= x < |w| && n in w[x].usings :: Config(x, n, [])
  }

  lemma {:induction false} NeverEndsNext(w: World, c: Config)
    ensures NeverEnds(w, c) <==> Step(w, c).Go? && NeverEnds(w, Step(w, c).next)
  {
    assert NeverEnds(w, c) ==> Resolve(w, c, 1) == Exhausted;
    if Step(w, c).Go? {
      var d := Step(w, c).next;
      if NeverEnds(w, c) {
        forall depth: nat ensures Resolve(w, d, depth) == Exhausted { assert Resolve(w, c, depth + 1) == Exhausted; }
      }
      if NeverEnds(w, d) {
        forall depth: nat ensures Resolve(w, c, depth) == Exhausted { }
      }
    }
  }

  /** A lookup never ends exactly when it meets an alias whose target's never does. */
  lemma {:induction false} NeverEndsByAlias(w: World, c: Config)
    requires Valid(w)
    ensures NeverEnds(w, c) <==> AliasMet(w, c).Some? && NeverEnds(w, Target(w, AliasMet(w, c).value))
    decreases |c.rest|
  {
    NeverEndsNext(w, c);
    if Below(w, c).Some? {
      NeverEndsByAlias(w, Below(w, c).value);
    } else if c.rest != [] {
      InheritedBranchDead(w, c);
    }
  }

  /** As many hops as there are come after it. */
  lemma {:induction false} HopsOn(w: World, a: Config, n: nat)
    requires Valid(w) && NeverEnds(w, Target(w, a))
    ensures At(Hop(w), a, n).Some? && NeverEnds(w, Target(w, At(Hop(w), a, n).value))
  {
    if n > 0 {
      HopsOn(w, a, n - 1);
      NeverEndsByAlias(w, Target(w, At(Hop(w), a, n - 1).value));
    }
  }

  ghost function Mover(w: World): Config -> Option<Config> {
    (c: Config) => if Step(w, c).Go? then Some(Step(w, c).next) else None
  }

  ghost function Meets(w: World): Config -> Option<Config> { (c: Config) => AliasMet(w, c) }

  ghost function Sends(w: World): Config -> Config { (a: Config) => Target(w, a) }

  lemma {:induction false} ExhaustedIsGoing(w: World, c: Config, depth: nat)
    ensures Resolve(w, c, depth) == Exhausted <==> At(Mover(w), c, depth).Some?
    decreases depth
  {
    if depth > 0 {
      AtAdd(Mover(w), c, 1, depth - 1);
      assert At(Mover(w), c, 1) == Mover(w)(c);
      if Step(w, c).Go? { ExhaustedIsGoing(w, Step(w, c).next, depth - 1); }
    }
  }

  lemma {:induction false} CallMeetsAlias(w: World, c: Config)
    requires AliasMet(w, c).Some?
    ensures Step(w, c).Go?
    ensures AliasMet(w, Step(w, c).next) == AliasMet(w, c) || Step(w, c).next == Target(w, AliasMet(w, c).value)
  {
    if Below(w, c).Some? { BelowStays(w, w, c); }
  }

  lemma {:induction false} CallsLead(w: World)
    ensures Leads(Mover(w), Meets(w), Sends(w)) && Hops(Hop(w), Meets(w), Sends(w))
  {
    forall c | Meets(w)(c).Some?
      ensures Mover(w)(c).Some?
      ensures Meets(w)(Mover(w)(c).value) == Meets(w)(c) || Mover(w)(c).value == Sends(w)(Meets(w)(c).value)
    {
      CallMeetsAlias(w, c);
    }
  }

  /** A hop takes at least one call. */
  lemma {:induction false} HopsTakeCalls(w: World, c: Config, n: nat)
    requires AliasMet(w, c).Some? && At(Hop(w), AliasMet(w, c).value, n).Some?
    ensures Resolve(w, c, n) == Exhausted
  {
    CallsLead(w);
    HopsTakeSteps(Mover(w), Meets(w), Sends(w), Hop(w), c, n);
    ExhaustedIsGoing(w, c, n);
  }

  lemma {:induction false} AliasIsKnown(w: World, c: Config)
    ensures AliasMet(w, c).Some? ==> AliasMet(w, c).value in Aliases(w)
  {
  }

  lemma {:induction false} HopsStayInside(w: World)
    ensures Keeps(Hop(w), Aliases(w))
  {
    forall a | a in Aliases(w) && Hop(w)(a).Some? ensures Hop(w)(a).value in Aliases(w) {
      AliasIsKnown(w, Target(w, a));
    }
  }

  /** find_class never ends exactly when it meets an alias from which going from target to target comes
      round in a circle; as many hops as there are aliases tell. */
  lemma {:induction false} EndsExactly(w: World, c: Config)
    requires Valid(w)
    ensures NeverEnds(w, c) <==> AliasMet(w, c).Some? && Repeats(Hop(w), AliasMet(w, c).value)
    ensures NeverEnds(w, c) <==> AliasMet(w, c).Some? && At(Hop(w), AliasMet(w, c).value, |Aliases(w)|).Some?
  {
    NeverEndsByAlias(w, c);
    if AliasMet(w, c).Some? { CircleExactly(w, AliasMet(w, c).value, c); }
  }

  lemma {:induction false} CircleExactly(w: World, a: Config, c: Config)
    requires Valid(w) && AliasMet(w, c) == Some(a)
    ensures NeverEnds(w, c) <==> Repeats(Hop(w), a)
    ensures NeverEnds(w, c) <==> At(Hop(w), a, |Aliases(w)|).Some?
  {
    var n := |Aliases(w)|;
    if NeverEnds(w, c) {
      NeverEndsByAlias(w, c);
      HopsOn(w, a, n);
    }
    if At(Hop(w), a, n).Some? {
      AliasIsKnown(w, c);
      HopsStayInside(w);
      LongRunRepeats(Hop(w), a, Aliases(w));
    }
    if Repeats(Hop(w), a) { CircleNeverEnds(w, a, c); }
  }

  lemma {:induction false} CircleNeverEnds(w: World, a: Config, c: Config)
    requires AliasMet(w, c) == Some(a) && Repeats(Hop(w), a)
    ensures NeverEnds(w, c)
  {
    var i: nat, j: nat :| i < j && At(Hop(w), a, i).Some? && At(Hop(w), a, i) == At(Hop(w), a, j);
    forall depth: nat ensures Resolve(w, c, depth) == Exhausted {
      RepeatsForever(Hop(w), a, i, j, depth);
      HopsTakeCalls(w, c, depth);
    }
  }

  /** An alias for itself is never resolved. */
  lemma {:induction false} SelfAlias(w: World, x: ScopeId, name: string)
    requires Valid(w) && x < |w| && name !in w[x].children && name in w[x].usings && w[x].usings[name] == name
    ensures NeverEnds(w, Parsed(x, name))
  {
    var c := Config(x, name, []);
    WordSplits(name, "");
    assert AliasMet(w, c) == Some(c) && Target(w, c) == c;
    assert At(Hop(w), c, 1) == Hop(w)(c) == At(Hop(w), c, 0);
    EndsExactly(w, c);
  }
}
