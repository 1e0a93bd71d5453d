/** Reading the enumerators of an enum body (add_fields and add_enum_field): a pattern is searched from
    the last delimiter on, and each match gives its closing delimiter back to the next one. */
module EnumScan {
  import opened Sequences
  import opened Scopes

  predicate IsWord(c: char) {
    'a' <= c <= 'z' || 'A' <= c <= 'Z' || '0' <= c <= '9' || c == '_'
  }

  predicate IsValueChar(c: char) { c != ',' && c != '}' && !IsSpace(c) }

  predicate IsDelimiter(c: char) { c == ',' || c == '}' }

  // ---- The pattern, part by part; each part returns what it leaves ----

  function SkipSpace(s: string): (t: string)
    ensures |t| <= |s|
  {
    if s != [] && IsSpace(s[0]) then SkipSpace(s[1..]) else s
  }

  function TakeWord(s: string): (r: (string, string))
    ensures s == r.0 + r.1
  {
    if s != [] && IsWord(s[0]) then var (w, t) := TakeWord(s[1..]); ([s[0]] + w, t) else ([], s)
  }

  function TakeValue(s: string): (r: (string, string))
    ensures s == r.0 + r.1
  {
    if s != [] && IsValueChar(s[0]) then var (w, t) := TakeValue(s[1..]); ([s[0]] + w, t) else ([], s)
  }

  /** After the name: space, an optional value, space, and a delimiter, which is left in place. */
  function AfterName(s: string): (r: Option<string>)
    ensures r.Some? ==> r.value != [] && |r.value| <= |s|
  {
    var t := SkipSpace(s);
    var u :=
      if t != [] && t[0] == '=' then
        var (v, rest) := TakeValue(SkipSpace(t[1..]));
        if v == [] then [] else SkipSpace(rest)
      else t;
    if u != [] && IsDelimiter(u[0]) then Some(u) else None
  }

  /** A match at the start of `s`: the name, and the text from the closing delimiter on.  No choice is
      left to backtracking: what a greedy part could give up is never what the rest looks for. */
  function MatchHere(s: string): (r: Option<(string, string)>)
    ensures r.Some? ==> r.value.1 != [] && |r.value.1| < |s|
  {
    if s == [] || (s[0] != ',' && s[0] != '{') then None
    else
      var (name, t) := TakeWord(SkipSpace(s[1..]));
      if name == [] || AfterName(t).None? then None else Some((name, AfterName(t).value))
  }

  /** re.search: the leftmost match. */
  function Search(s: string): (r: Option<(string, string)>)
    ensures r.Some? ==> r.value.1 != [] && |r.value.1| < |s|
  {
    if s == [] then None else if MatchHere(s).Some? then MatchHere(s) else Search(s[1..])
  }

  /** The names found in `s`, the text up to and including the close brace. */
  function Scan(s: string): seq<string>
    decreases |s|
  {
    if |s| <= 1 then []
    else match Search(s)
      case None => []
      case Some((name, t)) => [name] + Scan(t)
  }

  // ---- Printing ----

  datatype Value = NoValue | Value(gap: string, text: string)

  /** An enumerator with the space around its parts. */
  datatype Enumerator = Enumerator(before: string, name: string, mid: string, value: Value, after: string)

  predicate AllSpace(w: string) { forall c <- w :: IsSpace(c) }
  predicate AllWord(w: string) { w != [] && forall c <- w :: IsWord(c) }
  predicate AllValue(w: string) { w != [] && forall c <- w :: IsValueChar(c) }

  predicate WellFormed(e: Enumerator) {
    && AllSpace(e.before) && AllWord(e.name) && AllSpace(e.mid) && AllSpace(e.after)
    && (e.value.Value? ==> AllSpace(e.value.gap) && AllValue(e.value.text))
  }

  function PrintedTail(e: Enumerator, t: string): string {
    e.mid + if e.value.Value? then "=" + (e.value.gap + (e.value.text + (e.after + t))) else e.after + t
  }

  /** The enumerator followed by `t`. */
  function Printed(e: Enumerator, t: string): string { e.before + (e.name + PrintedTail(e, t)) }

  /** What follows an enumerator: the others, each after a comma, and the close brace, possibly after a
      trailing comma. */
  function Rest(es: seq<Enumerator>, trailing: Option<string>): string {
    if es == [] then if trailing.Some? then "," + (trailing.value + "}") else "}"
    else "," + Printed(es[0], Rest(es[1..], trailing))
  }

  function Names(es: seq<Enumerator>): seq<string> { if es == [] then [] else [es[0].name] + Names(es[1..]) }

  // ---- Each part consumes what it should ----

  predicate NotSpaceFirst(t: string) { t != [] && !IsSpace(t[0]) }

  lemma {:induction false} SkipsSpace(w: string, t: string)
    requires AllSpace(w) && NotSpaceFirst(t)
    ensures SkipSpace(w + t) == t
    decreases |w|
  {
    if w == [] {
      assert w + t == t;
    } else {
      assert w[0] in w && (w + t)[1..] == w[1..] + t;
      SkipsSpace(w[1..], t);
    }
  }

  lemma {:induction false} TakesWord(w: string, t: string)
    requires (forall c <- w :: IsWord(c)) && (t == [] || !IsWord(t[0]))
    ensures TakeWord(w + t) == (w, t)
    decreases |w|
  {
    if w == [] {
      assert w + t == t;
    } else {
      assert w[0] in w && (w + t)[1..] == w[1..] + t && w == [w[0]] + w[1..];
      TakesWord(w[1..], t);
    }
  }

  lemma {:induction false} TakesValue(w: string, t: string)
    requires (forall c <- w :: IsValueChar(c)) && (t == [] || !IsValueChar(t[0]))
    ensures TakeValue(w + t) == (w, t)
    decreases |w|
  {
    if w == [] {
      assert w + t == t;
    } else {
      assert w[0] in w && (w + t)[1..] == w[1..] + t && w == [w[0]] + w[1..];
      TakesValue(w[1..], t);
    }
  }

  lemma {:induction false} SpaceFirst(w: string, t: string)
    requires AllSpace(w) && t != [] && !IsWord(t[0]) && !IsValueChar(t[0])
    ensures w + t != [] && !IsWord((w + t)[0]) && !IsValueChar((w + t)[0])
  {
    if w != [] { assert w[0] in w && (w + t)[0] == w[0]; } else { assert w + t == t; }
  }

  lemma {:induction false} AfterNameOfPrinted(e: Enumerator, t: string)
    requires WellFormed(e) && t != [] && IsDelimiter(t[0])
    ensures AfterName(PrintedTail(e, t)) == Some(t)
    ensures PrintedTail(e, t) != [] && !IsWord(PrintedTail(e, t)[0])
  {
    if e.value.Value? {
      var valued := e.value.text + (e.after + t);
      var given := "=" + (e.value.gap + valued);
      assert e.value.text[0] in e.value.text && valued[0] == e.value.text[0];
      SkipsSpace(e.mid, given);
      assert given[1..] == e.value.gap + valued;
      SkipsSpace(e.value.gap, valued);
      SpaceFirst(e.after, t);
      TakesValue(e.value.text, e.after + t);
      SkipsSpace(e.after, t);
      if e.mid != [] { assert e.mid[0] in e.mid; }
    } else {
      var spaces := e.mid + e.after;
      assert PrintedTail(e, t) == spaces + t;
      SkipsSpace(spaces, t);
      SpaceFirst(spaces, t);
    }
  }

  /** After a delimiter, a printed enumerator that is followed by a delimiter is matched as a whole. */
  lemma {:induction false} PrintedMatches(d: char, e: Enumerator, t: string)
    requires WellFormed(e) && (d == ',' || d == '{') && t != [] && IsDelimiter(t[0])
    ensures MatchHere([d] + Printed(e, t)) == Some((e.name, t))
  {
    var tail := PrintedTail(e, t);
    assert e.name[0] in e.name && (e.name + tail)[0] == e.name[0];
    assert ([d] + Printed(e, t))[1..] == e.before + (e.name + tail);
    SkipsSpace(e.before, e.name + tail);
    AfterNameOfPrinted(e, t);
    TakesWord(e.name, tail);
  }

  // ---- Round trip ----

  lemma {:induction false} SearchNone(w: string)
    requires forall c <- w :: c != ',' && c != '{'
    ensures Search(w) == None
  {
    if w != [] {
      assert w[0] in w && forall c <- w[1..] :: c in w;
      SearchNone(w[1..]);
    }
  }

  /** Nothing but space between the last comma and the close brace: no further name. */
  lemma {:induction false} NoNameLeft(w: string)
    requires AllSpace(w)
    ensures Search("," + (w + "}")) == None
  {
    var s := "," + (w + "}");
    assert s[1..] == w + "}";
    SkipsSpace(w, "}");
    assert MatchHere(s) == None;
    SearchNone(w + "}");
  }

  lemma {:induction false} RestStarts(es: seq<Enumerator>, trailing: Option<string>)
    ensures Rest(es, trailing) != [] && IsDelimiter(Rest(es, trailing)[0])
  {
  }

  lemma {:induction false} ScanPrinted(d: char, e: Enumerator, t: string)
    requires WellFormed(e) && (d == ',' || d == '{') && t != [] && IsDelimiter(t[0])
    ensures Scan([d] + Printed(e, t)) == [e.name] + Scan(t)
  {
    PrintedMatches(d, e, t);
  }

  lemma {:induction false} ScanRest(es: seq<Enumerator>, trailing: Option<string>)
    requires (forall e <- es :: WellFormed(e)) && (trailing.Some? ==> AllSpace(trailing.value))
    ensures Scan(Rest(es, trailing)) == Names(es)
  {
    if es == [] {
      if trailing.Some? { NoNameLeft(trailing.value); }
    } else {
      assert es[0] in es;
      RestStarts(es[1..], trailing);
      ScanPrinted(',', es[0], Rest(es[1..], trailing));
      ScanRest(es[1..], trailing);
    }
  }

  /** Scanning a printed enum gives back the names in order, however it is spaced, with or without
      values and a trailing comma. */
  lemma {:induction false} EnumRoundTrip(es: seq<Enumerator>, trailing: Option<string>)
    requires es != [] && (forall e <- es :: WellFormed(e)) && (trailing.Some? ==> AllSpace(trailing.value))
    ensures Scan("{" + Printed(es[0], Rest(es[1..], trailing))) == Names(es)
  {
    assert es[0] in es;
    RestStarts(es[1..], trailing);
    ScanPrinted('{', es[0], Rest(es[1..], trailing));
    ScanRest(es[1..], trailing);
  }

  // ---- Matches are printed enumerators, so finding the text of a match again finds the match ----

  lemma {:induction false} AllSpaceCons(c: char, v: string)
    requires IsSpace(c) && AllSpace(v)
    ensures AllSpace([c] + v)
  {
  }

  lemma {:induction false} SpaceTaken(s: string) returns (w: string)
    ensures AllSpace(w) && s == w + SkipSpace(s)
  {
    if s != [] && IsSpace(s[0]) {
      var v := SpaceTaken(s[1..]);
      w := [s[0]] + v;
      AllSpaceCons(s[0], v);
      Cons(s, v, SkipSpace(s[1..]));
    } else {
      w := [];
    }
  }

  lemma {:induction false} Cons(s: string, v: string, t: string)
    requires s != [] && s[1..] == v + t
    ensures s == ([s[0]] + v) + t
  {
    assert s == [s[0]] + s[1..];
  }

  lemma {:induction false} WordTaken(s: string)
    ensures forall c <- TakeWord(s).0 :: IsWord(c)
  {
    if s != [] && IsWord(s[0]) { WordTaken(s[1..]); }
  }

  lemma {:induction false} ValueTaken(s: string)
    ensures forall c <- TakeValue(s).0 :: IsValueChar(c)
  {
    if s != [] && IsValueChar(s[0]) { ValueTaken(s[1..]); }
  }

  lemma {:induction false} TailTaken(s: string) returns (mid: string, value: Value, after: string)
    requires AfterName(s).Some?
    ensures AllSpace(mid) && AllSpace(after)
    ensures value.Value? ==> AllSpace(value.gap) && AllValue(value.text)
    ensures s == PrintedTail(Enumerator("", "", mid, value, after), AfterName(s).value)
  {
    mid := SpaceTaken(s);
    var t := SkipSpace(s);
    if t != [] && t[0] == '=' {
      var gap := SpaceTaken(t[1..]);
      var u := SkipSpace(t[1..]);
      ValueTaken(u);
      after := SpaceTaken(TakeValue(u).1);
      value := Value(gap, TakeValue(u).0);
      assert t == "=" + t[1..];
    } else {
      value, after := NoValue, "";
      assert "" + t == t;
    }
  }

  /** The text of a match is a delimiter, a printed enumerator, and a delimiter. */
  lemma {:induction false} MatchIsPrinted(s: string) returns (e: Enumerator)
    requires MatchHere(s).Some?
    ensures WellFormed(e) && e.name == MatchHere(s).value.0
    ensures IsDelimiter(MatchHere(s).value.1[0]) && s == [s[0]] + Printed(e, MatchHere(s).value.1)
  {
    var before := SpaceTaken(s[1..]);
    var u := SkipSpace(s[1..]);
    WordTaken(u);
    var mid, value, after := TailTaken(TakeWord(u).1);
    e := Enumerator(before, TakeWord(u).0, mid, value, after);
    assert s == [s[0]] + s[1..];
  }

  lemma {:induction false} PrintedExtends(e: Enumerator, t: string, y: string)
    ensures Printed(e, t + y) == Printed(e, t) + y
  {
  }

  /** How many characters precede the leftmost match. */
  function SearchAt(s: string): (k: nat)
    requires Search(s).Some?
    ensures k < |s| && MatchHere(s[k..]) == Search(s) && k + |Search(s).value.1| < |s|
  {
    if MatchHere(s).Some? then assert s[0..] == s; 0
    else
      var k := SearchAt(s[1..]);
      assert s[1..][k..] == s[k+1..];
      k + 1
  }

  lemma {:induction false} SearchAtFirst(s: string, j: nat)
    requires Search(s).Some? && j < SearchAt(s)
    ensures MatchHere(s[j..]).None?
  {
    if j == 0 {
      assert s[0..] == s;
    } else {
      SearchAtFirst(s[1..], j - 1);
      assert s[1..][j-1..] == s[j..];
    }
  }

  /** The text of a match at the start of `m`, closing delimiter included. */
  function MatchText(m: string): string
    requires MatchHere(m).Some?
  {
    m[..|m| - |MatchHere(m).value.1| + 1]
  }

  lemma {:induction false} TextIsPrinted(m: string) returns (e: Enumerator)
    requires MatchHere(m).Some?
    ensures WellFormed(e) && IsDelimiter(MatchHere(m).value.1[0])
    ensures MatchText(m) == [m[0]] + Printed(e, [MatchHere(m).value.1[0]])
  {
    e := MatchIsPrinted(m);
    var t := MatchHere(m).value.1;
    PrintedExtends(e, [t[0]], t[1..]);
    CutAfterOne([m[0]] + Printed(e, [t[0]]), t[1..], m, t);
  }

  lemma {:induction false} CutAfterOne(text: string, rest: string, m: string, t: string)
    requires t != [] && rest == t[1..] && ([t[0]] + rest == t ==> m == text + rest)
    ensures m[..|m| - |t| + 1] == text
  {
    assert [t[0]] + rest == t;
  }

  /** Wherever the text of a match stands, there is a match. */
  lemma {:induction false} MatchesAgain(m: string, u: string)
    requires MatchHere(m).Some? && MatchText(m) <= u
    ensures MatchHere(u).Some?
  {
    var e := TextIsPrinted(m);
    var d, y := MatchHere(m).value.1[0], u[|MatchText(m)|..];
    assert u == MatchText(m) + y;
    PrintedExtends(e, [d], y);
    assert u == [m[0]] + Printed(e, [d] + y);
    PrintedMatches(m[0], e, [d] + y);
  }

  /** The loop of add_fields for an enum, on what is left of the body from its open brace to its close
      brace.  Each match is located by finding its text again. */
  method AddFields(body: string) returns (fields: seq<string>)
    ensures fields == Scan(body)
  {
    fields := [];
    var s := body;
    while |s| > 1
      invariant Scan(body) == fields + Scan(s)
      decreases |s|
    {
      if Search(s).None? { break; }
      var (name, t) := Search(s).value;
      var text := MatchText(s[SearchAt(s)..]);
      FoundAgain(s);
      Regroup(fields, [name], Scan(t));
      fields := fields + [name];
      s := s[FindText(s, text, 0) + |text| - 1..];
    }
  }

  /** Finding the text of the match again finds the match, and one character before its end is where the
      text it leaves begins. */
  lemma {:induction false} FoundAgain(s: string)
    requires Search(s).Some?
    ensures var text, t := MatchText(s[SearchAt(s)..]), Search(s).value.1;
            var p := FindText(s, text, 0);
            p == SearchAt(s) && p + |text| - 1 == |s| - |t| && t == s[|s| - |t|..]
  {
    FoundThere(s);
    RemainderIsSuffix(s);
  }

  lemma {:induction false} FoundThere(s: string)
    requires Search(s).Some?
    ensures FindText(s, MatchText(s[SearchAt(s)..]), 0) == SearchAt(s)
  {
    MatchStands(s);
    var text := MatchText(s[SearchAt(s)..]);
    forall j: nat | j < SearchAt(s) ensures !StandsAt(s, text, j) { NotEarlier(s, j); }
    FoundFirst(s, text, SearchAt(s));
  }

  predicate StandsAt(s: string, text: string, k: nat) { k + |text| <= |s| && s[k..k + |text|] == text }

  lemma {:induction false} FoundFirst(s: string, text: string, k: nat)
    requires StandsAt(s, text, k) && forall j: nat :: j < k ==> !StandsAt(s, text, j)
    ensures FindText(s, text, 0) == k
  {
    FindTextFirst(s, text, 0, k);
    var r := FindText(s, text, 0);
    assert StandsAt(s, text, r);
  }

  lemma {:induction false} MatchStands(s: string)
    requires Search(s).Some?
    ensures StandsAt(s, MatchText(s[SearchAt(s)..]), SearchAt(s))
  {
  }

  /** What a match leaves is the end of the text. */
  lemma {:induction false} RemainderIsSuffix(s: string)
    requires Search(s).Some?
    ensures var t := Search(s).value.1; t == s[|s| - |t|..]
  {
    var k, t := SearchAt(s), Search(s).value.1;
    var e := MatchIsPrinted(s[k..]);
    PrintedExtends(e, "", t);
    assert "" + t == t;
    EndsWith(s, k, [s[k]] + Printed(e, ""), t);
  }

  lemma {:induction false} EndsWith(s: string, k: nat, a: string, t: string)
    requires k <= |s| && s[k..] == a + t
    ensures t == s[|s| - |t|..]
  {
    assert s[|s| - |t|..] == s[k..][|a|..];
  }

  lemma {:induction false} NotEarlier(s: string, j: nat)
    requires Search(s).Some? && j < SearchAt(s)
    ensures var text := MatchText(s[SearchAt(s)..]); j + |text| <= |s| && s[j..j + |text|] != text
  {
    var text := MatchText(s[SearchAt(s)..]);
    SearchAtFirst(s, j);
    if s[j..j + |text|] == text {
      assert text <= s[j..];
      MatchesAgain(s[SearchAt(s)..], s[j..]);
    }
  }
}
