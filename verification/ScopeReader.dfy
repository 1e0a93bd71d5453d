/** The reader itself: scope objects that advance a cursor and read nested scopes recursively. */
module ScopeReader {
  import opened Sequences
  import opened Braces
  import opened Scopes

  /** What the class pattern finds in content[current:end]: the brace a class, struct, enum or
      namespace header ends with.  The pattern is a parameter; any will do that ends with a brace. */
  datatype Header = NoHeader | HeaderAt(brace: nat)

  type Classifier = (nat, int) -> Header

  ghost predicate Honest(s: string, classify: Classifier) {
    forall current: nat, end: int :: classify(current, end).HeaderAt? ==>
      var b := classify(current, end).brace; current <= b < SliceEnd(|s|, end) && s[b] == '{'
  }

  /** Reading from `i` runs into an open brace that is never closed and not the last character. */
  predicate Stuck(s: string, i: nat)
    decreases |s| - i
  {
    OpensFirst(s, i) &&
    var f := NextOpen(s, i);
    var e := Close(s, f + 1, 0);
    if e == -1 then f < |s| - 1 else Stuck(s, e + 1)
  }

  lemma {:induction false} InsideIsMatched(s: string, i: nat, depth: nat, f: nat)
    requires Close(s, i, depth) != -1 && i <= f < Close(s, i, depth) && s[f] == '{'
    ensures Close(s, f + 1, 0) != -1
    decreases |s| - i
  {
    if i == f {
      CloseTwice(s, f + 1, 0, depth);
    } else if s[i] == '{' {
      InsideIsMatched(s, i + 1, depth + 1, f);
    } else if s[i] == '}' {
      InsideIsMatched(s, i + 1, depth - 1, f);
    } else {
      InsideIsMatched(s, i + 1, depth, f);
    }
  }

  /** An open brace, not the last character, that nothing closes. */
  ghost predicate Unclosed(s: string, f: nat) {
    f < |s| - 1 && s[f] == '{' && Close(s, f + 1, 0) == -1
  }

  /** Said without walking: no close brace is left over, and some open brace is unclosed. */
  lemma {:induction false} StuckMeaning(s: string, i: nat)
    ensures Stuck(s, i) <==> Close(s, i, 0) == -1 && exists f: nat :: i <= f && Unclosed(s, f)
    decreases |s| - i
  {
    CloseByScope(s, i);
    if OpensFirst(s, i) {
      var f := NextOpen(s, i);
      UnclosedFrom(s, i, f);
      var e := Close(s, f + 1, 0);
      if e == -1 {
        assert f < |s| - 1 ==> Unclosed(s, f);
      } else {
        StuckMeaning(s, e + 1);
        UnclosedAfter(s, f, e);
      }
    } else if i <= |s| && Close(s, i, 0) == -1 {
      FindFirst(s, '{', i, |s|);
    }
  }

  lemma {:induction false} UnclosedFrom(s: string, i: nat, f: nat)
    requires OpensFirst(s, i) && f == NextOpen(s, i)
    ensures forall g: nat :: i <= g && Unclosed(s, g) ==> f <= g
  {
    FindFirst(s, '{', i, |s|);
  }

  /** Nothing inside a complete scope is unclosed. */
  lemma {:induction false} UnclosedAfter(s: string, f: nat, e: nat)
    requires f < |s| && e == Close(s, f + 1, 0)
    ensures forall g: nat :: f <= g && Unclosed(s, g) ==> e + 1 <= g
  {
    forall g: nat | f <= g && Unclosed(s, g) ensures e + 1 <= g {
      if f < g < e { InsideIsMatched(s, f + 1, 0, g); }
    }
  }

  /** Balanced text is read to the end, and the scopes read are one for each open brace, in text order,
      each ended by its own close brace. */
  lemma {:induction false} BalancedIsRead(s: string)
    requires s != [] && Balanced(s, 1)
    ensures !Stuck(s, 1)
    ensures Starts(Children(s, 1)) == Opens(s, 1, |s|) && Nested(s, 1, |s|, Children(s, 1))
  {
    BalancedMatches(s, 1);
    StuckMeaning(s, 1);
    BalancedComplete(s, 1);
    MatchedLimit(s, 1);
    ChildrenNested(s, 1);
  }

  /** What is left to be read when the next scope starts at `f`. */
  ghost predicate Walks(s: string, current: nat, f: int) {
    if f == -1 then Finished(s, current)
    else
      f >= 0 && OpensFirst(s, current) && f == NextOpen(s, current) &&
      var e := Close(s, f + 1, 0);
      if e == -1 then Close(s, current, 0) == -1 && Stuck(s, current)
      else
        && SameWalk(s, current, e + 1)
        && Children(s, current) == [Tree.Scope(f, e, Children(s, f + 1))] + Children(s, e + 1)
  }

  /** One call of next_scope goes on from there. */
  lemma {:induction false} WalkStep(s: string, current: nat)
    ensures Walks(s, current, FirstOpen(s, current, FindPossibleEnd(s, current)))
  {
    EntersNextOpen(s, current);
    if !OpensFirst(s, current) {
      WalksNowhere(s, current);
    } else if NextOpen(s, current) < |s| - 1 {
      WalksInto(s, current);
    } else {
      WalkEnd(s, current);
    }
  }

  lemma {:induction false} WalksNowhere(s: string, current: nat)
    requires !OpensFirst(s, current)
    ensures Finished(s, current)
  {
    CloseByScope(s, current);
  }

  lemma {:induction false} WalksInto(s: string, current: nat)
    requires OpensFirst(s, current) && NextOpen(s, current) < |s| - 1
    ensures Walks(s, current, NextOpen(s, current))
  {
    CloseByScope(s, current);
  }

  /** Nothing more to read: the scope ends at the next close brace, if there is one. */
  ghost predicate Finished(s: string, current: nat) {
    Children(s, current) == [] && Close(s, current, 0) == Find(s, '}', current, |s|) && !Stuck(s, current)
  }

  /** Reading from `j` ends as reading from `i` does. */
  ghost predicate SameWalk(s: string, i: nat, j: nat) {
    i < j && Close(s, i, 0) == Close(s, j, 0) && Stuck(s, i) == Stuck(s, j)
  }

  /** The effect of next_scope on the cursor and on what has been visited. */
  ghost predicate Stepped(s: string, was: nat, seen: seq<Tree>, current: nat, visited: seq<Tree>, ok: bool,
                          found: bool)
  {
    SteppedFrom(s, FirstOpen(s, was, FindPossibleEnd(s, was)), was, seen, current, visited, ok, found)
  }

  ghost predicate SteppedFrom(s: string, f: int, was: nat, seen: seq<Tree>, current: nat, visited: seq<Tree>, ok: bool,
                              found: bool)
  {
    if f < 0 then ok && !found && current == was && visited == seen
    else
      var e := Close(s, f + 1, 0);
      && (ok <==> e != -1)
      && (ok ==> found && current == e + 1 && visited == seen + [Tree.Scope(f, e, Children(s, f + 1))])
  }

  lemma {:induction false} SteppedWalks(s: string, was: nat, seen: seq<Tree>, current: nat, visited: seq<Tree>,
                                        ok: bool, found: bool)
    requires Stepped(s, was, seen, current, visited, ok, found)
    ensures !ok ==> Close(s, was, 0) == -1 && Stuck(s, was)
    ensures ok && !found ==> current == was && visited == seen && Finished(s, current)
    ensures ok && found ==> SameWalk(s, was, current) && seen + Children(s, was) == visited + Children(s, current)
  {
    WalkStep(s, was);
    SteppedFromWalks(s, FirstOpen(s, was, FindPossibleEnd(s, was)), was, seen, current, visited, ok, found);
  }

  lemma {:induction false} SteppedFromWalks(s: string, f: int, was: nat, seen: seq<Tree>, current: nat,
                                            visited: seq<Tree>, ok: bool, found: bool)
    requires SteppedFrom(s, f, was, seen, current, visited, ok, found) && Walks(s, was, f)
    ensures !ok ==> Close(s, was, 0) == -1 && Stuck(s, was)
    ensures ok && !found ==> current == was && visited == seen && Finished(s, current)
    ensures ok && found ==> SameWalk(s, was, current) && seen + Children(s, was) == visited + Children(s, current)
  {
    if f != -1 && ok {
      var tree := Tree.Scope(f, Close(s, f + 1, 0), Children(s, f + 1));
      VisitedGrows(seen, tree, Children(s, current), visited, Children(s, was));
    }
  }

  lemma {:induction false} VisitedGrows(seen: seq<Tree>, tree: Tree, rest: seq<Tree>, visited: seq<Tree>,
                                        all: seq<Tree>)
    requires visited == seen + [tree] && all == [tree] + rest
    ensures seen + all == visited + rest
  {
    Regroup(seen, [tree], rest);
  }

  lemma {:induction false} WalkEnd(s: string, current: nat)
    requires current >= |s| - 1 || (OpensFirst(s, current) && NextOpen(s, current) == |s| - 1)
    ensures Finished(s, current)
  {
    CloseByScope(s, current);
  }

  /** The first open brace up to the guess ends a header. */
  predicate Headed(s: string, classify: Classifier, current: nat, guess: int) {
    var header := classify(current, guess);
    header.HeaderAt? && header.brace == FirstOpen(s, current, guess)
  }

  /** A header never ends before the first open brace. */
  lemma {:induction false} HeaderBehindFirst(s: string, classify: Classifier, current: nat, guess: int)
    requires Honest(s, classify)
    ensures var header, generic := classify(current, guess), FirstOpen(s, current, guess);
            header.HeaderAt? ==> current <= generic <= header.brace
  {
    FindFirst(s, '{', current, SliceEnd(|s|, guess));
  }

  class Scope {
    const content: string
    const isClass: bool
    const start: nat
    var current: nat
    var end: Option<nat>
    ghost var visited: seq<Tree>

    constructor (content: string, isClass: bool, start: nat)
      requires content != []
      ensures this.content == content && this.isClass == isClass && this.start == start
      ensures Fresh()
    {
      this.content, this.isClass, this.start := content, isClass, start;
      current := start + 1;
      end := if start == 0 then Some(|content| - 1) else None;
      visited := [];
    }

    ghost predicate Fresh()
      reads this
    {
      content != [] && current == start + 1 && visited == []
      && end == if start == 0 then Some(|content| - 1) else None
    }

    method Read(classify: Classifier) returns (ok: bool)
      requires Fresh() && Honest(content, classify)
      modifies this
      ensures start != 0 ==> (ok <==> Close(content, start + 1, 0) != -1)
      ensures start != 0 && ok ==> end == Some(Close(content, start + 1, 0))
      ensures start == 0 ==> (ok <==> !Stuck(content, 1)) && end == Some(|content| - 1)
      ensures ok ==> visited == Children(content, start + 1)
      decreases |content| - start, 1
    {
      ghost var goal := Children(content, start + 1);
      assert [] + goal == goal;
      var more := true;
      while more && current < |content| - 1
        invariant start < current && end == if start == 0 then Some(|content| - 1) else None
        invariant goal == visited + Children(content, current)
        invariant Close(content, current, 0) == Close(content, start + 1, 0)
        invariant Stuck(content, current) == Stuck(content, start + 1)
        invariant !more ==> Finished(content, current)
        decreases more, |content| - current
      {
        var child;
        ghost var was, seen := current, visited;
        ok, child := NextScope(classify);
        SteppedWalks(content, was, seen, current, visited, ok, child.Some?);
        if !ok { return false; }
        more := child != None;
      }
      if more { WalkEnd(content, current); }
      assert visited + [] == visited;
      if end == None {
        var e := Find(content, '}', current, |content|);
        if e == -1 { return false; }
        end := Some(e);
      }
      return true;
    }

    /** The scope that starts first before the guessed end, a class or a plain one. */
    method OpenScope(classify: Classifier, guess: int) returns (scope: Option<Scope>)
      requires content != [] && Honest(content, classify)
      ensures scope == None <==> FirstOpen(content, current, guess) == -1
      ensures scope.Some? ==> fresh(scope.value) && scope.value.Fresh() && scope.value.content == content
      ensures scope.Some? ==> scope.value.start == FirstOpen(content, current, guess) >= current
      ensures scope.Some? ==> (scope.value.isClass <==> isClass && Headed(content, classify, current, guess))
    {
      var header := if isClass then classify(current, guess) else NoHeader;
      var generic := FirstOpen(content, current, guess);
      HeaderBehindFirst(content, classify, current, guess);
      FindFirst(content, '{', current, SliceEnd(|content|, guess));
      if header == NoHeader && generic == -1 { return None; }
      var inner;
      if header != NoHeader && (generic == -1 || header.brace <= generic) {
        inner := new Scope(content, true, header.brace);
      } else {
        inner := new Scope(content, false, generic);
      }
      return Some(inner);
    }

    /** Reads one nested scope, if there is one before the guessed end. */
    method NextScope(classify: Classifier) returns (ok: bool, child: Option<Scope>)
      requires content != [] && start < current && Honest(content, classify)
      modifies this
      ensures end == old(end)
      ensures Stepped(content, old(current), old(visited), current, visited, ok, child.Some?)
      ensures child.Some? ==> child.value.end.Some? && child.value.end.value + 1 == current
      ensures child.Some? ==>
                (child.value.isClass <==>
                 isClass && Headed(content, classify, old(current), FindPossibleEnd(content, old(current))))
      decreases |content| - current + 1, 0
    {
      var first := OpenScope(classify, FindPossibleEnd(content, current));
      if first == None { return true, None; }
      var scope := first.value;
      ok := scope.Read(classify);
      if !ok { return false, None; }
      ghost var tree := Tree.Scope(scope.start, scope.end.value, scope.visited);
      current := scope.end.value + 1;
      visited := visited + [tree];
      return true, Some(scope);
    }
  }
}
