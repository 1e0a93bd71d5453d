/** Braces of a text: searching, matching by depth, and the tree of nested scopes.  This is the
    reference the scope reader is compared with; nothing here looks ahead or keeps a cursor. */
module Braces {

  /** Python's find of one character in text[from..until]; -1 if there is none. */
  function Find(s: string, c: char, from: nat, until: nat): (r: int)
    requires until <= |s|
    decreases until - from
    ensures r == -1 || (from <= r < until && s[r] == c)
  {
    if from >= until then -1 else if s[from] == c then from else Find(s, c, from + 1, until)
  }

  lemma {:induction false} FindFirst(s: string, c: char, from: nat, until: nat)
    requires until <= |s|
    ensures var r := Find(s, c, from, until);
            forall k :: from <= k < (if r == -1 then until else r) ==> s[k] != c
    decreases until - from
  {
    if from < until && s[from] != c { FindFirst(s, c, from + 1, until); }
  }

  /** The close brace that leaves `depth` enclosing scopes, scanning from `i`; -1 if there is none. */
  function Close(s: string, i: nat, depth: nat): (c: int)
    ensures c == -1 || (i <= c < |s| && s[c] == '}')
    decreases |s| - i
  {
    if i >= |s| then -1
    else if s[i] == '{' then Close(s, i + 1, depth + 1)
    else if s[i] == '}' then if depth == 0 then i else Close(s, i + 1, depth - 1)
    else Close(s, i + 1, depth)
  }

  /** Open braces less close braces in s[i..j]. */
  function Net(s: string, i: nat, j: nat): int
    requires i <= j <= |s|
    decreases j - i
  {
    if i == j then 0
    else Net(s, i, j - 1) + if s[j-1] == '{' then 1 else if s[j-1] == '}' then -1 else 0
  }

  lemma {:induction false} NetSplit(s: string, i: nat, k: nat, j: nat)
    requires i <= k <= j <= |s|
    ensures Net(s, i, j) == Net(s, i, k) + Net(s, k, j)
    decreases j - k
  {
    if k < j { NetSplit(s, i, k, j - 1); }
  }

  /** The brace at `c` closes a scope opened `depth` levels above position `i`. */
  ghost predicate Closes(s: string, i: nat, depth: nat, c: nat) {
    && i <= c < |s| && s[c] == '}' && depth + Net(s, i, c) == 0
    && (forall k :: i <= k <= c ==> depth + Net(s, i, k) >= 0)
  }

  /** Close finds exactly the brace that counting depth asks for. */
  lemma {:induction false} CloseMeaning(s: string, i: nat, depth: nat)
    ensures forall c: nat :: Closes(s, i, depth, c) <==> Close(s, i, depth) == c
    decreases |s| - i
  {
    if i < |s| {
      var step := if s[i] == '{' then 1 else if s[i] == '}' then -1 else 0;
      assert Net(s, i, i + 1) == Net(s, i, i) + step;
      if depth + step >= 0 {
        CloseMeaning(s, i + 1, depth + step);
        forall c: nat ensures Closes(s, i, depth, c) <==> Close(s, i, depth) == c {
          ClosesShift(s, i, depth, depth + step, c);
        }
      } else {
        forall c: nat ensures Closes(s, i, depth, c) <==> c == i {
          if c > i && c < |s| { assert depth + Net(s, i, i + 1) < 0; }
        }
      }
    }
  }

  lemma {:induction false} CloseCloses(s: string, i: nat)
    requires Close(s, i, 0) != -1
    ensures Closes(s, i, 0, Close(s, i, 0))
  {
    CloseMeaning(s, i, 0);
  }

  lemma {:induction false} ClosesShift(s: string, i: nat, depth: nat, deeper: nat, c: nat)
    requires i < |s| && deeper == depth + Net(s, i, i + 1)
    requires !(s[i] == '}' && depth == 0)
    ensures Closes(s, i, depth, c) <==> Closes(s, i + 1, deeper, c)
  {
    var n := i + 1;
    forall k | n <= k <= |s| ensures Net(s, i, k) == Net(s, i, n) + Net(s, n, k) {
      NetSplit(s, i, n, k);
    }
    if Closes(s, n, deeper, c) {
      forall k | i <= k <= c ensures depth + Net(s, i, k) >= 0 {
        if k > i { assert deeper + Net(s, n, k) >= 0; }
      }
    }
    if Closes(s, i, depth, c) {
      assert Net(s, i, i) == 0;
      forall k | n <= k <= c ensures deeper + Net(s, n, k) >= 0 { assert depth + Net(s, i, k) >= 0; }
    }
  }

  // ---- One scope at a time ----

  /** The next brace from `i` is an open one. */
  predicate OpensFirst(s: string, i: nat) {
    var open, close := Find(s, '{', i, |s|), Find(s, '}', i, |s|);
    open != -1 && (close == -1 || open < close)
  }

  function NextOpen(s: string, i: nat): (f: nat)
    requires OpensFirst(s, i)
    ensures i <= f < |s| && s[f] == '{'
  {
    Find(s, '{', i, |s|)
  }

  lemma {:induction false} CloseSkipsText(s: string, i: nat, k: nat, depth: nat)
    requires i <= k <= |s| && forall j :: i <= j < k ==> s[j] != '{' && s[j] != '}'
    ensures Close(s, i, depth) == Close(s, k, depth)
    decreases k - i
  {
    if i < k { CloseSkipsText(s, i + 1, k, depth); }
  }

  /** Closing two scopes is closing the inner one and then the outer one. */
  lemma {:induction false} CloseTwice(s: string, i: nat, depth: nat, outer: nat)
    ensures var inner := Close(s, i, depth);
            Close(s, i, depth + 1 + outer) == if inner == -1 then -1 else Close(s, inner + 1, outer)
    decreases |s| - i
  {
    if i < |s| {
      if s[i] == '{' {
        CloseTwice(s, i + 1, depth + 1, outer);
      } else if s[i] == '}' {
        if depth > 0 { CloseTwice(s, i + 1, depth - 1, outer); }
      } else {
        CloseTwice(s, i + 1, depth, outer);
      }
    }
  }

  /** The close of the enclosing scope, found by skipping one nested scope or none. */
  lemma {:induction false} CloseByScope(s: string, i: nat)
    ensures if OpensFirst(s, i) then
              var inner := Close(s, NextOpen(s, i) + 1, 0);
              Close(s, i, 0) == if inner == -1 then -1 else Close(s, inner + 1, 0)
            else Close(s, i, 0) == Find(s, '}', i, |s|)
  {
    FindFirst(s, '{', i, |s|);
    FindFirst(s, '}', i, |s|);
    if OpensFirst(s, i) {
      var f := NextOpen(s, i);
      CloseSkipsText(s, i, f, 0);
      CloseTwice(s, f + 1, 0, 0);
    } else if i <= |s| {
      var c := Find(s, '}', i, |s|);
      CloseSkipsText(s, i, if c == -1 then |s| else c, 0);
    }
  }

  // ---- The tree of scopes ----

  datatype Tree = Scope(start: nat, end: nat, children: seq<Tree>)

  /** The scopes from `i` up to the first brace that does not belong to a complete scope. */
  function Children(s: string, i: nat): seq<Tree>
    decreases |s| - i
  {
    if !OpensFirst(s, i) then []
    else
      var f := NextOpen(s, i);
      var e := Close(s, f + 1, 0);
      if e == -1 then [] else [Scope(f, e, Children(s, f + 1))] + Children(s, e + 1)
  }

  /** That brace, or the end of the text. */
  function Limit(s: string, i: nat): (l: nat)
    requires i <= |s|
    ensures i <= l <= |s|
    decreases |s| - i
  {
    if !OpensFirst(s, i) then var c := Find(s, '}', i, |s|); if c == -1 then |s| else c
    else
      var f := NextOpen(s, i);
      var e := Close(s, f + 1, 0);
      if e == -1 then f else Limit(s, e + 1)
  }

  lemma {:induction false} LimitIsClose(s: string, i: nat)
    requires i <= |s| && Close(s, i, 0) != -1
    ensures Limit(s, i) == Close(s, i, 0)
    decreases |s| - i
  {
    CloseByScope(s, i);
    if OpensFirst(s, i) { LimitIsClose(s, Close(s, NextOpen(s, i) + 1, 0) + 1); }
  }

  /** The open braces of s[i..j], in text order. */
  function Opens(s: string, i: nat, j: nat): seq<nat>
    requires i <= j <= |s|
    decreases j - i
  {
    if i == j then []
    else if s[j-1] == '{' then Opens(s, i, j - 1) + [j - 1]
    else Opens(s, i, j - 1)
  }

  lemma {:induction false} OpensSplit(s: string, i: nat, k: nat, j: nat)
    requires i <= k <= j <= |s|
    ensures Opens(s, i, j) == Opens(s, i, k) + Opens(s, k, j)
    decreases j - k
  {
    if k < j { OpensSplit(s, i, k, j - 1); }
  }

  lemma {:induction false} OpensNone(s: string, i: nat, j: nat)
    requires i <= j <= |s| && forall k :: i <= k < j ==> s[k] != '{'
    ensures Opens(s, i, j) == []
    decreases j - i
  {
    if i < j { OpensNone(s, i, j - 1); }
  }

  /** The starts of all scopes of a forest, an outer scope before those inside it. */
  function Starts(ts: seq<Tree>): seq<nat> {
    if ts == [] then [] else [ts[0].start] + Starts(ts[0].children) + Starts(ts[1..])
  }

  /** The open braces of a complete scope, then those after it. */
  lemma {:induction false} OpensOfScope(s: string, i: nat, f: nat, e: nat, j: nat)
    requires i <= f < e < j <= |s| && s[f] == '{' && s[e] == '}'
    requires forall k :: i <= k < f ==> s[k] != '{'
    ensures Opens(s, i, j) == [f] + Opens(s, f + 1, e) + Opens(s, e + 1, j)
  {
    var inside, after := Opens(s, f + 1, e), Opens(s, e + 1, j);
    assert Opens(s, i, f + 1) == [f] by { OpensNone(s, i, f); }
    assert Opens(s, f + 1, j) == inside + after by { OpensSplit(s, f + 1, e + 1, j); }
    assert Opens(s, i, j) == [f] + (inside + after) by { OpensSplit(s, i, f + 1, j); }
  }

  lemma {:induction false} StartsFront(t: Tree, rest: seq<Tree>)
    ensures Starts([t] + rest) == [t.start] + Starts(t.children) + Starts(rest)
  {
    assert ([t] + rest)[0] == t && ([t] + rest)[1..] == rest;
  }

  /** Before the first complete scope there is no open brace. */
  lemma {:induction false} OpensBefore(s: string, i: nat)
    requires i <= |s|
    ensures if OpensFirst(s, i) then Opens(s, i, NextOpen(s, i)) == [] else Opens(s, i, Limit(s, i)) == []
    ensures OpensFirst(s, i) ==> forall k :: i <= k < NextOpen(s, i) ==> s[k] != '{'
  {
    FindFirst(s, '{', i, |s|);
    if OpensFirst(s, i) { OpensNone(s, i, NextOpen(s, i)); } else { OpensNone(s, i, Limit(s, i)); }
  }

  /** Every open brace starts exactly one scope, and scopes are listed in text order. */
  lemma {:induction false} StartsAreOpens(s: string, i: nat)
    requires i <= |s|
    ensures Starts(Children(s, i)) == Opens(s, i, Limit(s, i))
    decreases |s| - i
  {
    OpensBefore(s, i);
    if OpensFirst(s, i) && Close(s, NextOpen(s, i) + 1, 0) != -1 {
      var f := NextOpen(s, i);
      var e: nat := Close(s, f + 1, 0);
      StartsAreOpens(s, f + 1);
      LimitIsClose(s, f + 1);
      StartsAreOpens(s, e + 1);
      OpensOfScope(s, i, f, e, Limit(s, e + 1));
      StartsFront(Scope(f, e, Children(s, f + 1)), Children(s, e + 1));
    }
  }

  /** Scopes lie between `lo` and `hi`, one after the other, each ending at the brace that closes it
      by depth and holding its own scopes inside. */
  ghost predicate Nested(s: string, lo: nat, hi: nat, ts: seq<Tree>)
    decreases ts
  {
    ts == [] ||
    (var t := ts[0];
     && lo <= t.start < t.end < hi <= |s|
     && s[t.start] == '{' && Close(s, t.start + 1, 0) == t.end
     && Nested(s, t.start + 1, t.end, t.children)
     && Nested(s, t.end + 1, hi, ts[1..]))
  }

  lemma {:induction false} NestedFront(s: string, lo: nat, hi: nat, t: Tree, rest: seq<Tree>)
    requires lo <= t.start < t.end < hi <= |s| && s[t.start] == '{' && Close(s, t.start + 1, 0) == t.end
    requires Nested(s, t.start + 1, t.end, t.children) && Nested(s, t.end + 1, hi, rest)
    ensures Nested(s, lo, hi, [t] + rest)
  {
    assert ([t] + rest)[0] == t && ([t] + rest)[1..] == rest;
  }

  lemma {:induction false} ChildrenNested(s: string, i: nat)
    requires i <= |s|
    ensures Nested(s, i, Limit(s, i), Children(s, i))
    decreases |s| - i
  {
    if OpensFirst(s, i) && Close(s, NextOpen(s, i) + 1, 0) != -1 {
      var f := NextOpen(s, i);
      var e: nat := Close(s, f + 1, 0);
      ChildrenNested(s, f + 1);
      ChildrenNested(s, e + 1);
      ChildrenNestedStep(s, i, f, e);
    }
  }

  lemma {:induction false} ChildrenNestedStep(s: string, i: nat, f: nat, e: nat)
    requires i <= |s| && OpensFirst(s, i) && f == NextOpen(s, i) && e == Close(s, f + 1, 0)
    requires Nested(s, f + 1, Limit(s, f + 1), Children(s, f + 1))
    requires Nested(s, e + 1, Limit(s, e + 1), Children(s, e + 1))
    ensures Nested(s, i, Limit(s, i), Children(s, i))
  {
    LimitIsClose(s, f + 1);
    NestedFront(s, i, Limit(s, e + 1), Scope(f, e, Children(s, f + 1)), Children(s, e + 1));
    ScopeFirst(s, i, f, e);
  }

  lemma {:induction false} ScopeFirst(s: string, i: nat, f: nat, e: nat)
    requires i <= |s| && OpensFirst(s, i) && f == NextOpen(s, i) && e == Close(s, f + 1, 0)
    ensures Children(s, i) == [Scope(f, e, Children(s, f + 1))] + Children(s, e + 1)
    ensures Limit(s, i) == Limit(s, e + 1)
  {
  }

  // ---- Balanced text ----

  ghost predicate Balanced(s: string, i: nat)
    requires i <= |s|
  {
    Net(s, i, |s|) == 0 && forall k :: i <= k <= |s| ==> Net(s, i, k) >= 0
  }

  lemma {:induction false} NoCloseNonNegative(s: string, i: nat, depth: nat, k: nat)
    requires i <= k <= |s| && Close(s, i, depth) == -1
    ensures depth + Net(s, i, k) >= 0
    decreases |s| - i
  {
    if i < k {
      NetSplit(s, i, i + 1, k);
      assert Net(s, i, i + 1) == Net(s, i, i) + if s[i] == '{' then 1 else if s[i] == '}' then -1 else 0;
      NoCloseNonNegative(s, i + 1, depth + Net(s, i, i + 1), k);
    }
  }

  lemma {:induction false} CloseFalls(s: string, i: nat)
    requires Close(s, i, 0) != -1
    ensures Net(s, i, Close(s, i, 0) + 1) == -1
  {
    CloseCloses(s, i);
  }

  /** In balanced text nothing closes too much and every open brace has its close. */
  lemma {:induction false} BalancedMatches(s: string, i: nat)
    requires i <= |s| && Balanced(s, i)
    ensures Close(s, i, 0) == -1
    ensures forall f :: i <= f < |s| && s[f] == '{' ==> Close(s, f + 1, 0) != -1
  {
    if Close(s, i, 0) != -1 { CloseFalls(s, i); }
    forall f | i <= f < |s| && s[f] == '{' ensures Close(s, f + 1, 0) != -1 {
      NetSplit(s, i, f + 1, |s|);
      assert Net(s, i, f + 1) == Net(s, i, f) + 1;
      if Close(s, f + 1, 0) == -1 { NoCloseNonNegative(s, f + 1, 0, |s|); }
    }
  }

  lemma {:induction false} MatchedLimit(s: string, i: nat)
    requires i <= |s| && Close(s, i, 0) == -1
    requires forall f :: i <= f < |s| && s[f] == '{' ==> Close(s, f + 1, 0) != -1
    ensures Limit(s, i) == |s|
    decreases |s| - i
  {
    CloseByScope(s, i);
    if OpensFirst(s, i) { MatchedLimit(s, Close(s, NextOpen(s, i) + 1, 0) + 1); }
  }

  /** So in balanced text the tree has exactly one scope for every open brace. */
  lemma {:induction false} BalancedComplete(s: string, i: nat)
    requires i <= |s| && Balanced(s, i)
    ensures Starts(Children(s, i)) == Opens(s, i, |s|)
  {
    BalancedMatches(s, i);
    MatchedLimit(s, i);
    StartsAreOpens(s, i);
  }
}
