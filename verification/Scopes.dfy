/** The scope reader of the reflection checker (EmptyScope, ClassStruct and Namespace: read, next_scope
    and find_possible_end).  It keeps a cursor, guesses where the current scope may end, and descends
    into the first open brace before that guess. */
module Scopes {
  import opened Sequences
  import opened Braces

  /** Python's upper bound of a slice or a search: negative counts from the end. */
  function SliceEnd(n: nat, e: int): (r: nat)
    ensures r <= n
  {
    if e >= 0 then (if e < n then e else n) else (if n + e < 0 then 0 else n + e)
  }

  /** What `\s` matches. */
  predicate IsSpace(c: char) {
    || '\t' <= c <= '\r' || '\U{1c}' <= c <= ' ' || c == '\U{85}' || c == '\U{a0}' || c == '\U{1680}'
    || '\U{2000}' <= c <= '\U{200a}' || c == '\U{2028}' || c == '\U{2029}'
    || c == '\U{202f}' || c == '\U{205f}' || c == '\U{3000}'
  }

  // ---- The initialiser pattern: an open brace, anything but ';' and '}', a close brace, space, ';' ----

  ghost predicate IsInit(t: string) {
    |t| >= 3 && t[0] == '{' && t[|t|-1] == ';' &&
    exists b :: 0 < b < |t| - 1 && t[b] == '}' && (forall k :: 0 < k < b ==> t[k] != ';' && t[k] != '}')
                && (forall k :: b < k < |t| - 1 ==> IsSpace(t[k]))
  }

  function BodyEnd(s: string, i: nat): (r: nat)
    requires i <= |s|
    ensures i <= r <= |s|
    decreases |s| - i
  {
    if i == |s| || s[i] == ';' || s[i] == '}' then i else BodyEnd(s, i + 1)
  }

  function SpaceEnd(s: string, i: nat): (r: nat)
    requires i <= |s|
    ensures i <= r <= |s|
    decreases |s| - i
  {
    if i == |s| || !IsSpace(s[i]) then i else SpaceEnd(s, i + 1)
  }

  /** The length of the match at `a`, or 0. */
  function MatchLength(s: string, a: nat): (n: nat)
    requires a <= |s|
    ensures a + n <= |s|
  {
    if a == |s| || s[a] != '{' then 0
    else
      var b := BodyEnd(s, a + 1);
      if b == |s| || s[b] != '}' then 0
      else
        var d := SpaceEnd(s, b + 1);
        if d == |s| || s[d] != ';' then 0 else d + 1 - a
  }

  lemma {:induction false} BodyEndFirst(s: string, i: nat)
    requires i <= |s|
    ensures forall k :: i <= k < BodyEnd(s, i) ==> s[k] != ';' && s[k] != '}'
    ensures BodyEnd(s, i) < |s| ==> s[BodyEnd(s, i)] == ';' || s[BodyEnd(s, i)] == '}'
    decreases |s| - i
  {
    if i < |s| && s[i] != ';' && s[i] != '}' { BodyEndFirst(s, i + 1); }
  }

  lemma {:induction false} SpaceEndFirst(s: string, i: nat)
    requires i <= |s|
    ensures forall k :: i <= k < SpaceEnd(s, i) ==> IsSpace(s[k])
    ensures SpaceEnd(s, i) < |s| ==> !IsSpace(s[SpaceEnd(s, i)])
    decreases |s| - i
  {
    if i < |s| && IsSpace(s[i]) { SpaceEndFirst(s, i + 1); }
  }

  /** A match is text of the pattern's form ... */
  lemma {:induction false} MatchIsInit(s: string, a: nat)
    requires a <= |s| && MatchLength(s, a) > 0
    ensures IsInit(s[a..a + MatchLength(s, a)])
  {
    var t, b := s[a..a + MatchLength(s, a)], BodyEnd(s, a + 1);
    BodyEndFirst(s, a + 1);
    SpaceEndFirst(s, b + 1);
    assert forall k :: 0 <= k < |t| ==> t[k] == s[a + k];
    assert t[b - a] == '}';
  }

  /** The same where the text stands: `c` is the brace that ends it. */
  ghost predicate InitStands(s: string, a: nat, c: nat, d: nat) {
    && a < c < d < |s| && s[a] == '{' && s[c] == '}' && s[d] == ';'
    && (forall k :: a < k < c ==> s[k] != ';' && s[k] != '}')
    && (forall k :: c < k < d ==> IsSpace(s[k]))
  }

  lemma {:induction false} InitIsThere(s: string, a: nat, n: nat) returns (c: nat)
    requires a + n <= |s| && IsInit(s[a..a + n])
    ensures InitStands(s, a, c, a + n - 1)
  {
    var t := s[a..a + n];
    var b :| 0 < b < n - 1 && t[b] == '}' && (forall k :: 0 < k < b ==> t[k] != ';' && t[k] != '}')
             && (forall k :: b < k < n - 1 ==> IsSpace(t[k]));
    c := a + b;
    forall k | a < k < c ensures s[k] != ';' && s[k] != '}' { assert s[k] == t[k - a]; }
    forall k | c < k < a + n - 1 ensures IsSpace(s[k]) { assert s[k] == t[k - a]; }
  }

  /** ... and wherever such text stands there is a match. */
  lemma {:induction false} InitMatches(s: string, a: nat, n: nat)
    requires a + n <= |s| && IsInit(s[a..a + n])
    ensures MatchLength(s, a) > 0
  {
    var c := InitIsThere(s, a, n);
    BodyEndAt(s, a + 1, c);
    SpaceEndAt(s, c + 1, a + n - 1);
  }

  lemma {:induction false} BodyEndAt(s: string, i: nat, b: nat)
    requires i <= b < |s| && s[b] == '}' && forall k :: i <= k < b ==> s[k] != ';' && s[k] != '}'
    ensures BodyEnd(s, i) == b
    decreases b - i
  {
    if i < b { BodyEndAt(s, i + 1, b); }
  }

  lemma {:induction false} SpaceEndAt(s: string, i: nat, d: nat)
    requires i <= d < |s| && s[d] == ';' && forall k :: i <= k < d ==> IsSpace(s[k])
    ensures SpaceEnd(s, i) == d
    decreases d - i
  {
    if i < d { SpaceEndAt(s, i + 1, d); }
  }

  /** re.search: the leftmost match from `i`; -1 if there is none. */
  function SearchInit(s: string, i: nat): (r: int)
    requires i <= |s|
    ensures r == -1 || (i <= r < |s| && MatchLength(s, r) > 0)
    decreases |s| - i
  {
    if MatchLength(s, i) > 0 then i else if i == |s| then -1 else SearchInit(s, i + 1)
  }

  lemma {:induction false} SearchInitFirst(s: string, i: nat, k: nat)
    requires i <= k <= |s| && MatchLength(s, k) > 0
    ensures i <= SearchInit(s, i) <= k
    decreases |s| - i
  {
    if MatchLength(s, i) == 0 { SearchInitFirst(s, i + 1, k); }
  }

  /** Python's find of a text; -1 if there is none. */
  function FindText(s: string, t: string, i: nat): (r: int)
    ensures r == -1 || (i <= r && r + |t| <= |s| && s[r..r + |t|] == t)
    decreases |s| - i
  {
    if i + |t| > |s| then -1 else if s[i..i + |t|] == t then i else FindText(s, t, i + 1)
  }

  lemma {:induction false} FindTextFirst(s: string, t: string, i: nat, k: nat)
    requires i <= k && k + |t| <= |s| && s[k..k + |t|] == t
    ensures i <= FindText(s, t, i) <= k
    decreases k - i
  {
    if i < k && s[i..i + |t|] != t { FindTextFirst(s, t, i + 1, k); }
  }

  /** The guess where the current scope may end. */
  function FindPossibleEnd(s: string, current: nat): int {
    var possible := Find(s, '}', current, |s|);
    if current > |s| || SearchInit(s, current) == -1 then possible
    else
      var a := SearchInit(s, current);
      var all := s[a..a + MatchLength(s, a)];
      var allStart := FindText(s, all, current);
      var allEnd := allStart + |all|;
      if allStart < possible < allEnd then Find(s, '}', allEnd + 1, |s|) else possible
  }

  lemma {:induction false} SameTextMatches(s: string, a: nat, p: nat)
    requires a <= |s| && MatchLength(s, a) > 0 && p + MatchLength(s, a) <= |s|
    requires s[p..p + MatchLength(s, a)] == s[a..a + MatchLength(s, a)]
    ensures MatchLength(s, p) > 0
  {
    MatchIsInit(s, a);
    InitMatches(s, p, MatchLength(s, a));
  }

  lemma {:induction false} LeftmostText(s: string, current: nat, a: nat, p: nat)
    requires current <= p <= a <= |s| && a == SearchInit(s, current)
    requires s[p..p + MatchLength(s, a)] == s[a..a + MatchLength(s, a)]
    ensures p == a
  {
    SameTextMatches(s, a, p);
    SearchInitFirst(s, current, p);
  }

  /** Looking for the matched text again finds the match itself. */
  lemma {:induction false} MatchFoundAgain(s: string, current: nat)
    requires current <= |s| && SearchInit(s, current) != -1
    ensures var a := SearchInit(s, current);
            FindText(s, s[a..a + MatchLength(s, a)], current) == a
  {
    var a := SearchInit(s, current);
    var n := MatchLength(s, a);
    var r := FindText(s, s[a..a + n], current);
    FoundAtOrBefore(s, a, n, current);
    LeftmostText(s, current, a, r);
  }

  lemma {:induction false} FoundAtOrBefore(s: string, a: nat, n: nat, i: nat)
    requires i <= a && a + n <= |s|
    ensures var r := FindText(s, s[a..a + n], i); i <= r <= a && s[r..r + n] == s[a..a + n]
  {
    FindTextFirst(s, s[a..a + n], i, a);
  }

  /** The open brace that next_scope descends into, searching up to `end`; -1 if there is none. */
  function FirstOpen(s: string, current: nat, end: int): int {
    Find(s, '{', current, SliceEnd(|s|, end))
  }

  lemma {:induction false} FindShorter(s: string, c: char, from: nat, short: nat, long: nat)
    requires short <= long <= |s|
    ensures var r := Find(s, c, from, long); Find(s, c, from, short) == if r != -1 && r < short then r else -1
    decreases long - from
  {
    if from < short && s[from] != c { FindShorter(s, c, from + 1, short, long); }
  }

  /** Skipping an initialiser never changes which brace is entered, not even when the skip finds no
      further close brace and the search stops one character short of the end. */
  lemma {:induction false} LookAheadHarmless(s: string, current: nat)
    ensures FirstOpen(s, current, FindPossibleEnd(s, current)) == FirstOpen(s, current, Find(s, '}', current, |s|))
  {
    var plain, guess := Find(s, '}', current, |s|), FindPossibleEnd(s, current);
    if guess != plain {
      var a := SearchInit(s, current);
      MatchFoundAgain(s, current);
      FindFirst(s, '{', current, |s|);
      FindShorter(s, '{', current, SliceEnd(|s|, guess), |s|);
      FindShorter(s, '{', current, SliceEnd(|s|, plain), |s|);
      assert current <= a < plain < |s| && s[a] == '{';
      assert guess == -1 || guess > plain;
    }
  }

  /** So the reader enters the next brace exactly when that is an open one, unless it is an open brace
      at the very end of the text. */
  lemma {:induction false} EntersNextOpen(s: string, current: nat)
    ensures FirstOpen(s, current, FindPossibleEnd(s, current)) ==
            if OpensFirst(s, current) && NextOpen(s, current) < |s| - 1 then NextOpen(s, current) else -1
  {
    LookAheadHarmless(s, current);
    var plain := Find(s, '}', current, |s|);
    FindShorter(s, '{', current, SliceEnd(|s|, plain), |s|);
  }

  // ---- The guess itself ----

  /** `r` is the first close brace from `from` on, or -1. */
  ghost predicate FirstClose(s: string, from: nat, r: int) {
    if r == -1 then forall k :: from <= k < |s| ==> s[k] != '}'
    else from <= r < |s| && s[r] == '}' && forall k :: from <= k < r ==> s[k] != '}'
  }

  /** The first initialiser from `current` on is at `a`, of length `n`. */
  ghost predicate FirstInit(s: string, current: nat, a: int, n: nat) {
    && current <= a <= |s| && MatchLength(s, a) == n > 0
    && forall b :: current <= b < a ==> MatchLength(s, b) == 0
  }

  lemma {:induction false} FirstInitFound(s: string, current: nat, a: int, n: nat)
    requires FirstInit(s, current, a, n)
    ensures SearchInit(s, current) == a
  {
    SearchInitFirst(s, current, a);
  }

  lemma {:induction false} FindIsFirstClose(s: string, from: nat)
    ensures FirstClose(s, from, Find(s, '}', from, |s|))
  {
    FindFirst(s, '}', from, |s|);
  }

  /** The guess is the first close brace, unless that is inside the first initialiser: then it is the first one
      that does not stand right behind that. */
  lemma {:induction false} PossibleEndExact(s: string, current: nat, a: int, n: nat)
    requires FirstInit(s, current, a, n)
    ensures Guessed(s, current, a, a + n, FindPossibleEnd(s, current))
  {
    GuessIs(s, current, a, n);
    PlainOrBehind(s, current, a, a + n, FindPossibleEnd(s, current));
  }

  /** There is a first close brace: the guess is that, or the first one behind `b` if it is between `a` and `b`. */
  ghost predicate Guessed(s: string, current: nat, a: int, b: nat, guess: int) {
    exists plain ::
      FirstClose(s, current, plain) && if a < plain < b then FirstClose(s, b + 1, guess) else guess == plain
  }

  lemma {:induction false} PlainOrBehind(s: string, current: nat, a: int, b: nat, guess: int)
    requires var plain := Find(s, '}', current, |s|);
             guess == if a < plain < b then Find(s, '}', b + 1, |s|) else plain
    ensures Guessed(s, current, a, b, guess)
  {
    FindIsFirstClose(s, current);
    FindIsFirstClose(s, b + 1);
  }

  lemma {:induction false} GuessIs(s: string, current: nat, a: int, n: nat)
    requires FirstInit(s, current, a, n)
    ensures var plain := Find(s, '}', current, |s|);
            FindPossibleEnd(s, current) == if a < plain < a + n then Find(s, '}', a + n + 1, |s|) else plain
  {
    FirstInitFound(s, current, a, n);
    MatchFoundAgain(s, current);
  }

  /** Without an initialiser it is the first close brace. */
  lemma {:induction false} PossibleEndPlain(s: string, current: nat)
    requires current > |s| || forall b :: current <= b <= |s| ==> MatchLength(s, b) == 0
    ensures FirstClose(s, current, FindPossibleEnd(s, current))
  {
    FindIsFirstClose(s, current);
  }

  lemma {:induction false} FirstCloseUnique(s: string, from: nat, r: int, q: int)
    requires FirstClose(s, from, r) && FirstClose(s, from, q)
    ensures r == q
  {
  }

  /** So it is the first close brace behind the initialiser exactly when none stands right behind that. */
  lemma {:induction false} SkipsOneMore(s: string, current: nat, a: int, n: nat, plain: int)
    requires FirstInit(s, current, a, n) && FirstClose(s, current, plain) && a < plain < a + n
    ensures FirstClose(s, a + n, FindPossibleEnd(s, current)) <==> a + n == |s| || s[a + n] != '}'
  {
    PossibleEndExact(s, current, a, n);
    GuessedBehind(s, current, a, a + n, FindPossibleEnd(s, current), plain);
    NotRightBehind(s, a + n, FindPossibleEnd(s, current));
  }

  lemma {:induction false} GuessedBehind(s: string, current: nat, a: int, b: nat, guess: int, plain: int)
    requires Guessed(s, current, a, b, guess) && FirstClose(s, current, plain) && a < plain < b
    ensures FirstClose(s, b + 1, guess)
  {
    forall q | FirstClose(s, current, q) ensures q == plain { FirstCloseUnique(s, current, q, plain); }
  }

  lemma {:induction false} NotRightBehind(s: string, e: nat, r: int)
    requires e <= |s| && FirstClose(s, e + 1, r)
    ensures FirstClose(s, e, r) <==> e == |s| || s[e] != '}'
  {
  }

  /** As here: the brace that closes the scope is passed over. */
  lemma {:induction false} MissesTheEnd()
    ensures FindPossibleEnd("{0};}", 0) == -1
  {
    var s := "{0};}";
    assert BodyEnd(s, 1) == 2 by { BodyEndAt(s, 1, 2); }
    assert SpaceEnd(s, 3) == 3;
    assert FirstInit(s, 0, 0, 4);
    PossibleEndExact(s, 0, 0, 4);
    GuessedBehind(s, 0, 0, 4, FindPossibleEnd(s, 0), 2);
  }
}
