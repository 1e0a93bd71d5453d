/** Finding a class by its qualified name: find_class over the scopes read so far. */
module Lookup {
  import opened Sequences
  import opened EnumScan
  import opened Scopes

  /** A scope is known by the order of its creation. Scopes that are not classes, structs, enums or
      namespaces keep no children, and are nobody's children. */
  type ScopeId = nat
  datatype Scope = Scope(
    name: string,
    isClass: bool,
    children: map<string, ScopeId>,
    usings: map<string, string>,
    inherit: Option<ScopeId>)
  type World = seq<Scope>

  ghost predicate Valid(w: World) {
    && (forall x, n :: 0 <= x < |w| && n in w[x].children ==>
          AllWord(n) && w[x].children[n] < |w| && w[w[x].children[n]].isClass)
    && (forall x, n :: 0 <= x < |w| && n in w[x].usings ==> AllWord(n))
    && (forall x :: 0 <= x < |w| && w[x].inherit.Some? ==> w[x].inherit.value < |w|)
    && (forall x :: 0 <= x < |w| && !w[x].isClass ==>
          w[x].children == map[] && w[x].usings == map[] && w[x].inherit == None)
  }

  /** Nothing is ever taken away or replaced, except that an alias may be given a new target. */
  ghost predicate Grows(w: World, v: World) {
    && |w| <= |v|
    && forall x :: 0 <= x < |w| ==>
         && v[x].isClass == w[x].isClass && v[x].inherit == w[x].inherit
         && (forall n <- w[x].children :: n in v[x].children && v[x].children[n] == w[x].children[n])
  }

  // ---- Qualified names ----

  /** A scope asked for a name, the name cut at its separators. */
  datatype Config = Config(scope: ScopeId, first: string, rest: seq<string>)

  function Parsed(x: ScopeId, name: string): Config
    decreases |name|
  {
    var loc := FindText(name, "::", 0);
    if loc == -1 then Config(x, name, [])
    else
      var c := Parsed(x, name[loc + 2..]);
      Config(x, name[..loc], [c.first] + c.rest)
  }

  function Spelled(first: string, rest: seq<string>): string
    decreases |rest|
  {
    if rest == [] then first else first + "::" + Spelled(rest[0], rest[1..])
  }

  lemma {:induction false} SpelledParsed(x: ScopeId, name: string)
    ensures Spelled(Parsed(x, name).first, Parsed(x, name).rest) == name
    decreases |name|
  {
    var loc := FindText(name, "::", 0);
    if loc != -1 {
      SpelledParsed(x, name[loc + 2..]);
      assert name == name[..loc] + name[loc..loc + 2] + name[loc + 2..];
    }
  }

  lemma {:induction false} SeparatorFound(s: string)
    ensures FindText(s, "::", 0) != -1 ==> s[FindText(s, "::", 0)] == ':'
  {
    var r := FindText(s, "::", 0);
    if r != -1 { assert s[r..r + 2][0] == ':'; }
  }

  /** A word holds no separator, and is the first component of any name it is put before. */
  lemma {:induction false} WordSplits(first: string, rest: string)
    requires AllWord(first)
    ensures FindText(first, "::", 0) == -1
    ensures FindText(first + "::" + rest, "::", 0) == |first|
    ensures (first + "::" + rest)[..|first|] == first && (first + "::" + rest)[|first| + 2..] == rest
  {
    var all := first + "::" + rest;
    forall i | 0 <= i < |first| ensures first[i] != ':' { assert first[i] in first; }
    SeparatorFound(first);
    SeparatorFound(all);
    assert all[|first|..|first| + 2] == "::";
    FindTextFirst(all, "::", 0, |first|);
  }

  /** Words joined by separators are found again. */
  lemma {:induction false} ParsedSpelled(x: ScopeId, first: string, rest: seq<string>)
    requires AllWord(first) && forall n <- rest :: AllWord(n)
    ensures Parsed(x, Spelled(first, rest)) == Config(x, first, rest)
    decreases |rest|
  {
    if rest == [] {
      WordSplits(first, "");
    } else {
      assert rest[0] in rest;
      WordSplits(first, Spelled(rest[0], rest[1..]));
      ParsedSpelled(x, rest[0], rest[1..]);
    }
  }

  /** A name with a separator is not a word. */
  lemma {:induction false} QualifiedIsNoWord(first: string, rest: seq<string>)
    requires rest != []
    ensures !AllWord(Spelled(first, rest))
  {
    var s := Spelled(first, rest);
    assert s[|first|] == ':' && s[|first|] in s;
  }

  // ---- Looking up ----

  datatype Outcome = Go(next: Config) | Done(answer: Option<ScopeId>)
  datatype Result = Found(answer: Option<ScopeId>) | Exhausted

  function Child(w: World, x: ScopeId, n: string): Option<ScopeId> {
    if x < |w| && n in w[x].children then Some(w[x].children[n]) else None
  }

  function Alias(w: World, x: ScopeId, n: string): Option<string> {
    if x < |w| && n in w[x].usings then Some(w[x].usings[n]) else None
  }

  function Inherited(w: World, x: ScopeId, n: string): Option<ScopeId> {
    if x < |w| && w[x].inherit.Some? then Child(w, w[x].inherit.value, n) else None
  }

  /** The rest of a qualified name, asked of `x`. */
  function Onward(c: Config, x: ScopeId): Config
    requires c.rest != []
  {
    Config(x, c.rest[0], c.rest[1..])
  }

  /** One call of find_class. Every recursive call is in tail position. */
  function Step(w: World, c: Config): Outcome {
    if c.rest != [] then
      var child, inherited := Child(w, c.scope, c.first), Inherited(w, c.scope, Spelled(c.first, c.rest));
      if child.Some? then Go(Onward(c, child.value))
      else if inherited.Some? then Go(Onward(c, inherited.value))
      else Done(None)
    else if Child(w, c.scope, c.first).Some? then Done(Child(w, c.scope, c.first))
    else if Alias(w, c.scope, c.first).Some? then Go(Parsed(c.scope, Alias(w, c.scope, c.first).value))
    else Done(Inherited(w, c.scope, c.first))
  }

  /** find_class under a limit on the depth of calls, as the interpreter sets one. */
  ghost function Resolve(w: World, c: Config, depth: nat): Result
    decreases depth
  {
    if depth == 0 then Exhausted
    else
      match Step(w, c)
      case Done(answer) => Found(answer)
      case Go(next) => Resolve(w, next, depth - 1)
  }

  /** Qualified names are not looked up through inheritance: the branch that tries is never taken. */
  lemma {:induction false} InheritedBranchDead(w: World, c: Config)
    requires Valid(w) && c.rest != []
    ensures Inherited(w, c.scope, Spelled(c.first, c.rest)) == None
  {
    QualifiedIsNoWord(c.first, c.rest);
  }

  // ---- Names that lead through children alone ----

  ghost function Follow(w: World, x: ScopeId, path: seq<string>): Option<ScopeId>
    decreases |path|
  {
    if path == [] then Some(x)
    else if Child(w, x, path[0]).Some? then Follow(w, Child(w, x, path[0]).value, path[1..])
    else None
  }

  lemma {:induction false} FollowFound(w: World, c: Config, depth: nat)
    requires Follow(w, c.scope, [c.first] + c.rest).Some?
    ensures Resolve(w, c, depth) ==
            if depth <= |c.rest| then Exhausted else Found(Follow(w, c.scope, [c.first] + c.rest))
    decreases |c.rest|
  {
    assert ([c.first] + c.rest)[1..] == c.rest;
    if c.rest != [] {
      var d := Onward(c, Child(w, c.scope, c.first).value);
      assert [d.first] + d.rest == c.rest;
      if depth > 0 { FollowFound(w, d, depth - 1); }
    }
  }

  /** A path of children is found, in as many calls as it has components. */
  lemma {:induction false} PathFound(w: World, x: ScopeId, first: string, rest: seq<string>, depth: nat)
    requires AllWord(first) && (forall n <- rest :: AllWord(n)) && Follow(w, x, [first] + rest).Some?
    ensures Resolve(w, Parsed(x, Spelled(first, rest)), depth) ==
            if depth <= |rest| then Exhausted else Found(Follow(w, x, [first] + rest))
  {
    ParsedSpelled(x, first, rest);
    FollowFound(w, Config(x, first, rest), depth);
  }

  /** What a call goes on with when its name is qualified and its first component is a child. */
  ghost function Below(w: World, c: Config): Option<Config> {
    if c.rest != [] && Child(w, c.scope, c.first).Some? then Some(Onward(c, Child(w, c.scope, c.first).value)) else None
  }

  /** Where the children end. */
  ghost function Stop(w: World, c: Config): Config
    decreases |c.rest|
  {
    if Below(w, c).Some? then Stop(w, Below(w, c).value) else c
  }

  /** Children alone lead to an answer. */
  ghost predicate ByChildren(w: World, c: Config) {
    var d := Stop(w, c); d.rest == [] && Child(w, d.scope, d.first).Some?
  }

  lemma {:induction false} BelowStays(w: World, v: World, c: Config)
    requires Grows(w, v) && Below(w, c).Some?
    ensures Below(v, c) == Below(w, c)
    ensures Step(w, c) == Step(v, c) == Go(Below(w, c).value)
  {
  }

  /** Such an answer is the one given, and it stays whatever is added. */
  lemma {:induction false} ByChildrenStays(w: World, v: World, c: Config, depth: nat)
    requires Grows(w, v) && ByChildren(w, c)
    ensures Resolve(v, c, depth) == Resolve(w, c, depth)
    ensures Resolve(w, c, depth) == Exhausted ||
            Resolve(w, c, depth) == Found(Child(w, Stop(w, c).scope, Stop(w, c).first))
    decreases |c.rest|
  {
    if Below(w, c).Some? {
      BelowStays(w, v, c);
      if depth > 0 { ByChildrenStays(w, v, Below(w, c).value, depth - 1); }
    }
  }

  lemma {:induction false} ParsedOnward(x: ScopeId, name: string, y: ScopeId)
    requires FindText(name, "::", 0) != -1
    ensures var loc, c := FindText(name, "::", 0), Parsed(x, name);
            c.rest != [] && c.first == name[..loc] && Onward(c, y) == Parsed(y, name[loc + 2..])
  {
    var left := name[FindText(name, "::", 0) + 2..];
    ParsedAnywhere(x, y, left);
    assert Parsed(x, name).rest[1..] == Parsed(x, left).rest;
  }

  /** The lookup of a qualified name, by the name itself. */
  lemma {:induction false} ResolveQualified(w: World, x: ScopeId, name: string, depth: nat)
    requires depth > 0 && FindText(name, "::", 0) != -1
    ensures var loc := FindText(name, "::", 0);
            var child, inherited := Child(w, x, name[..loc]), Inherited(w, x, name);
            Resolve(w, Parsed(x, name), depth) ==
            if child.Some? then Resolve(w, Parsed(child.value, name[loc + 2..]), depth - 1)
            else if inherited.Some? then Resolve(w, Parsed(inherited.value, name[loc + 2..]), depth - 1)
            else Found(None)
  {
    var child, inherited := Child(w, x, name[..FindText(name, "::", 0)]), Inherited(w, x, name);
    SpelledParsed(x, name);
    ParsedOnward(x, name, if child.Some? then child.value else if inherited.Some? then inherited.value else x);
  }

  lemma {:induction false} ParsedAnywhere(x: ScopeId, y: ScopeId, name: string)
    ensures Parsed(y, name) == Parsed(x, name).(scope := y)
    decreases |name|
  {
    var loc := FindText(name, "::", 0);
    if loc != -1 { ParsedAnywhere(x, y, name[loc + 2..]); }
  }
}
