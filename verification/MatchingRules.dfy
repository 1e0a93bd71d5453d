/** What the acceptance theorem of module Matching means for the rules the tool documents. */
module MatchingRules {
  import opened Sequences
  import opened Matching

  lemma {:induction false} DistinctCounts(s: seq<Field>)
    ensures Distinct(s) <==> forall x :: multiset(s)[x] <= 1
  {
    if s != [] {
      DistinctCounts(s[1..]);
      ConsFacts(s);
      assert s == [s[0]] + s[1..];
      forall x ensures multiset(s)[x] == multiset(s[1..])[x] + if x == s[0] then 1 else 0 {
        assert multiset([s[0]])[x] == if x == s[0] then 1 else 0;
      }
      assert s[0] in s[1..] <==> multiset(s[1..])[s[0]] > 0;
      assert multiset(s)[s[0]] == multiset(s[1..])[s[0]] + 1;
    }
  }

  /** Agreement is conservation of names: the class holds the macro's fields and the ignored ones,
      each once, and the unmarked ones in the same order. */
  lemma {:induction false} AgreeConserves(c: seq<Field>, r: seq<Field>, swapped: set<Field>, ignored: set<Field>)
    requires Distinct(r) && swapped !! ignored
    ensures Agree(c, r, swapped, ignored) <==>
            && multiset(c) == multiset(r) + multiset(ignored)
            && (forall x <- ignored :: x !in r)
            && (forall x <- swapped :: x in r)
            && Without(c, swapped + ignored) == Without(r, swapped)
  {
    DistinctCounts(c);
    DistinctCounts(r);
    var total := multiset(r) + multiset(ignored);
    if Agree(c, r, swapped, ignored) {
      forall x ensures multiset(c)[x] == total[x] {
        WithoutMember(c, swapped + ignored, x);
        WithoutMember(r, swapped, x);
        assert x in c <==> x in r || x in ignored;
        assert multiset(c)[x] <= 1 && multiset(r)[x] <= 1;
      }
    } else if multiset(c) == total && forall x <- ignored :: x !in r {
      forall x ensures x in c <==> x in r || x in ignored {
        assert x in multiset(c) <==> x in total;
      }
      forall x ensures multiset(c)[x] <= 1 {
        assert multiset(r)[x] <= 1;
      }
    }
  }

  lemma {:induction false} WithoutOne(s: seq<Field>, p: nat)
    requires p < |s| && Distinct(s)
    ensures Without(s, {s[p]}) == s[..p] + s[p+1..]
  {
    ConsFacts(s);
    if p == 0 {
      WithoutAgree(s[1..], {s[0]}, {});
      WithoutNothing(s[1..]);
    } else {
      WithoutOne(s[1..], p - 1);
      assert s[..p] + s[p+1..] == [s[0]] + (s[1..][..p-1] + s[1..][p..]);
    }
  }

  lemma {:induction false} WithoutNothing(s: seq<Field>)
    ensures Without(s, {}) == s
  {
    if s != [] { WithoutNothing(s[1..]); }
  }

  /** With nothing ignored and one field marked, the mark is accepted exactly when taking the field
      out of both lists makes them equal and the field really is at another place. */
  lemma {:induction false} SingleSwap(c: seq<Field>, r: seq<Field>, x: Field)
    requires Distinct(r)
    ensures Decide(c, r, {x}, {}) == Accepted <==>
            exists p: nat, q: nat :: p < |c| && q < |r| && MovedField(c, r, x, p, q)
  {
    DecideExact(c, r, {x}, {});
    assert {x} + {} == {x};
    if Agree(c, r, {x}, {}) {
      var p: nat :| p < |c| && c[p] == x;
      var q: nat :| q < |r| && r[q] == x;
      SingleSwapAt(c, r, p, q);
      forall p': nat, q': nat | p' < |c| && q' < |r| && MovedField(c, r, x, p', q') ensures p' == p && q' == q { }
      assert MovedField(c, r, x, p, q) <==> Decide(c, r, {x}, {}) == Accepted;
    } else {
      forall p: nat, q: nat | p < |c| && q < |r| && MovedField(c, r, x, p, q) ensures false {
        TakenOutDistinct(c, r, p, q);
        WithoutOne(c, p);
        WithoutOne(r, q);
      }
    }
  }

  ghost predicate MovedField(c: seq<Field>, r: seq<Field>, x: Field, p: nat, q: nat)
    requires p < |c| && q < |r|
  {
    c[p] == x && r[q] == x && p != q && c[..p] + c[p+1..] == r[..q] + r[q+1..]
  }

  lemma {:induction false} SingleSwapAt(c: seq<Field>, r: seq<Field>, p: nat, q: nat)
    requires Distinct(c) && Distinct(r) && p < |c| && q < |r| && c[p] == r[q]
    requires Without(c, {c[p]}) == Without(r, {c[p]})
    ensures Needless(c, r, {c[p]}) <==> p == q
    ensures c[..p] + c[p+1..] == r[..q] + r[q+1..]
  {
    WithoutOne(c, p);
    WithoutOne(r, q);
    var rest := c[..p] + c[p+1..];
    assert p > 0 ==> rest[p-1] == c[p-1];
    assert q > 0 ==> rest[q-1] == r[q-1];
    if p == q {
      assert NeedlessAt(c, r, {c[p]}, p, p, p);
    }
    forall i: nat, p': nat, q': nat | NeedlessAt(c, r, {c[p]}, i, p', q') ensures p == q {
      assert c[i] in {c[p]} && c[p'] in {c[p]};
      assert i == p == p' && q' == q;
    }
  }

  lemma {:induction false} TakenOutCounts(s: seq<Field>, p: nat)
    requires p < |s|
    ensures multiset(s) == multiset(s[..p] + s[p+1..]) + multiset{s[p]}
  {
    assert s == s[..p] + ([s[p]] + s[p+1..]);
  }

  lemma {:induction false} TakenOutDistinct(c: seq<Field>, r: seq<Field>, p: nat, q: nat)
    requires Distinct(r) && p < |c| && q < |r| && c[p] == r[q]
    requires c[..p] + c[p+1..] == r[..q] + r[q+1..]
    ensures Distinct(c)
  {
    TakenOutCounts(c, p);
    TakenOutCounts(r, q);
    DistinctCounts(c);
    DistinctCounts(r);
  }

  lemma {:induction false} WithoutConcat(s: seq<Field>, t: seq<Field>, d: set<Field>)
    ensures Without(s + t, d) == Without(s, d) + Without(t, d)
  {
    if s == [] {
      assert s + t == t;
    } else {
      WithoutConcat(s[1..], t, d);
      assert (s + t)[0] == s[0] && (s + t)[1..] == s[1..] + t;
      Regroup(if s[0] in d then [] else [s[0]], Without(s[1..], d), Without(t, d));
    }
  }

  /** The documented rule: when two neighbouring fields are exchanged, marking either of them is
      accepted, marking both is rejected, and so is marking neither. */
  lemma {:induction false} Transposition(pre: seq<Field>, a: Field, b: Field, post: seq<Field>)
    requires Distinct(pre + [b, a] + post)
    ensures Decide(pre + [a, b] + post, pre + [b, a] + post, {a}, {}) == Accepted
    ensures Decide(pre + [a, b] + post, pre + [b, a] + post, {b}, {}) == Accepted
    ensures Decide(pre + [a, b] + post, pre + [b, a] + post, {a, b}, {}) == Rejected(SwappedInPlace)
    ensures Decide(pre + [a, b] + post, pre + [b, a] + post, {}, {}).Rejected?
  {
    FirstMarked(pre, a, b, post);
    SecondMarked(pre, a, b, post);
    BothMarked(pre, a, b, post);
    NeitherMarked(pre, a, b, post);
  }

  lemma {:induction false} TakeOut(s: seq<Field>, x: Field, t: seq<Field>)
    ensures var u := s + [x] + t; u[|s|] == x && u[..|s|] == s && u[|s|+1..] == t
  {
  }

  lemma {:induction false} FirstMoved(pre: seq<Field>, a: Field, b: Field, post: seq<Field>)
    ensures MovedField(pre + [a, b] + post, pre + [b, a] + post, a, |pre|, |pre| + 1)
  {
    var c, r := pre + [a, b] + post, pre + [b, a] + post;
    assert c == pre + [a] + ([b] + post) && r == (pre + [b]) + [a] + post;
    TakeOut(pre, a, [b] + post);
    TakeOut(pre + [b], a, post);
    assert pre + ([b] + post) == (pre + [b]) + post;
  }

  lemma {:induction false} FirstMarked(pre: seq<Field>, a: Field, b: Field, post: seq<Field>)
    requires Distinct(pre + [b, a] + post)
    ensures Decide(pre + [a, b] + post, pre + [b, a] + post, {a}, {}) == Accepted
    ensures Distinct(pre + [a, b] + post)
  {
    FirstMoved(pre, a, b, post);
    SingleSwap(pre + [a, b] + post, pre + [b, a] + post, a);
    TakenOutDistinct(pre + [a, b] + post, pre + [b, a] + post, |pre|, |pre| + 1);
  }

  lemma {:induction false} SecondMarked(pre: seq<Field>, a: Field, b: Field, post: seq<Field>)
    requires Distinct(pre + [b, a] + post)
    ensures Decide(pre + [a, b] + post, pre + [b, a] + post, {b}, {}) == Accepted
  {
    var c, r, n := pre + [a, b] + post, pre + [b, a] + post, |pre|;
    assert MovedField(c, r, b, n + 1, n) by {
      assert c == (pre + [a]) + [b] + post && r == pre + [b] + ([a] + post);
      TakeOut(pre + [a], b, post);
      TakeOut(pre, b, [a] + post);
      assert pre + ([a] + post) == (pre + [a]) + post;
    }
    SingleSwap(c, r, b);
  }

  lemma {:induction false} NeitherMarked(pre: seq<Field>, a: Field, b: Field, post: seq<Field>)
    requires Distinct(pre + [b, a] + post)
    ensures Decide(pre + [a, b] + post, pre + [b, a] + post, {}, {}).Rejected?
  {
    var c, r, n := pre + [a, b] + post, pre + [b, a] + post, |pre|;
    DecideExact(c, r, {}, {});
    var none: set<Field> := {};
    assert none + none == none;
    WithoutNothing(c);
    WithoutNothing(r);
    assert c[n] == a && r[n] == b && r[n+1] == a;
  }

  lemma {:induction false} BothMarked(pre: seq<Field>, a: Field, b: Field, post: seq<Field>)
    requires Distinct(pre + [b, a] + post) && Distinct(pre + [a, b] + post)
    ensures Decide(pre + [a, b] + post, pre + [b, a] + post, {a, b}, {}) == Rejected(SwappedInPlace)
  {
    var c, r, n := pre + [a, b] + post, pre + [b, a] + post, |pre|;
    assert c[n] == a && c[n+1] == b && r[n] == b && r[n+1] == a;
    DecideExact(c, r, {a, b}, {});
    assert {a, b} + {} == {a, b};
    WithoutConcat(pre + [a, b], post, {a, b});
    WithoutConcat(pre, [a, b], {a, b});
    WithoutConcat(pre + [b, a], post, {a, b});
    WithoutConcat(pre, [b, a], {a, b});
    WithoutEmpty([a, b], {a, b});
    WithoutEmpty([b, a], {a, b});
    forall j | n <= j <= n + 1 ensures c[j] in {a, b} && c[j] !in r[..n] {
      assert forall k :: 0 <= k < n ==> r[..n][k] == r[k];
    }
    assert n > 0 ==> c[n-1] == r[n-1] && r[n-1] != a && r[n-1] != b;
    assert NeedlessAt(c, r, {a, b}, n, n + 1, n);
  }

  /** "Only indicate fields that are not in the expected order" is not enforced in general: an
      ignored field directly before a field that is in order lets a swap mark on the latter pass. */
  lemma {:induction false} InOrderMarkBehindIgnored(pre: seq<Field>, g: Field, x: Field, post: seq<Field>)
    requires Distinct(pre + [g, x] + post)
    ensures Decide(pre + [g, x] + post, pre + [x] + post, {x}, {g}) == Accepted
    ensures Decide(pre + [g, x] + post, pre + [x] + post, {}, {g}) == Accepted
  {
    var c, r := pre + [g, x] + post, pre + [x] + post;
    WithoutIgnored(pre, g, x, post);
    DecideExact(c, r, {x}, {g});
    DecideExact(c, r, {}, {g});
    AgreeSplit(pre, g, x, post, {x});
    AgreeSplit(pre, g, x, post, {});
    NothingNeedless(pre, g, x, post);
    forall i: nat, p: nat, q: nat | NeedlessAt(c, r, {}, i, p, q) ensures false { }
  }

  /** Taking the ignored field out keeps names apart and leaves it unreflected. */
  lemma {:induction false} WithoutIgnored(pre: seq<Field>, g: Field, x: Field, post: seq<Field>)
    requires Distinct(pre + [g, x] + post)
    ensures Distinct(pre + [x] + post) && g !in pre + [x] + post
    ensures g !in pre && g !in post && g != x
    ensures forall y :: y in pre + [g, x] + post <==> y == g || y in pre + [x] + post
  {
    var c, r, n := pre + [g, x] + post, pre + [x] + post, |pre|;
    assert c[n] == g && c[n+1] == x;
    assert forall k :: 0 <= k < |r| ==> r[k] == c[if k < n then k else k + 1];
    assert forall k :: 0 <= k < |pre| ==> pre[k] == c[k];
    assert forall k :: 0 <= k < |post| ==> post[k] == c[n + 2 + k];
  }

  lemma {:induction false} NothingNeedless(pre: seq<Field>, g: Field, x: Field, post: seq<Field>)
    requires Distinct(pre + [g, x] + post)
    ensures !Needless(pre + [g, x] + post, pre + [x] + post, {x})
  {
    var c, r, n := pre + [g, x] + post, pre + [x] + post, |pre|;
    WithoutIgnored(pre, g, x, post);
    assert c[n] == g && c[n+1] == x;
    forall i: nat, p: nat, q: nat | NeedlessAt(c, r, {x}, i, p, q) ensures false { }
  }

  lemma {:induction false} AgreeSplit(pre: seq<Field>, g: Field, x: Field, post: seq<Field>, s: set<Field>)
    requires g !in pre && g !in post && g != x && g !in s
    ensures Without(pre + [g, x] + post, s + {g}) == Without(pre + [x] + post, s)
  {
    WithoutConcat(pre + [g, x], post, s + {g});
    WithoutConcat(pre, [g, x], s + {g});
    WithoutConcat(pre + [x], post, s);
    WithoutConcat(pre, [x], s);
    WithoutAgree(pre, s + {g}, s);
    WithoutAgree(post, s + {g}, s);
    assert [g, x] == [g] + [x];
    WithoutConcat([g], [x], s + {g});
    WithoutAgree([x], s + {g}, s);
  }

  /** A name marked both ways and not reflected is never accepted, whatever the lists are. */
  lemma {:induction false} ContradictoryMark(c: seq<Field>, r: seq<Field>, reflected: seq<Field>, m: Marks, x: Field)
    requires forall y <- r :: y in reflected
    requires x in m.swapped && x in m.ignored && x !in reflected
    ensures Run(c, r, reflected, m).verdict.Rejected?
    decreases |c| + |r|
  {
    if c != [] {
      var s := Step(c, r, reflected, m);
      if s.Next? { ContradictoryMark(s.c, s.r, reflected, s.m, x); }
    }
  }
}
