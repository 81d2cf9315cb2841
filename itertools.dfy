/**
 * The pieces of Python's `itertools` (and of `range`, list filtering and
 * list concatenation) that the KenKen code builds on, each in the order
 * Python produces its elements, with the membership facts the rest of the
 * model needs.
 */
module Itertools {
  import opened Lists

  /** `range(lo, hi + 1)`. */
  function Range(lo: int, hi: int): (r: seq<int>)
    ensures |r| == if lo <= hi then hi - lo + 1 else 0
    ensures forall k :: 0 <= k < |r| ==> r[k] == lo + k
    decreases hi - lo
  {
    if lo > hi then [] else [lo] + Range(lo + 1, hi)
  }

  lemma InRange(lo: int, hi: int, x: int)
    ensures x in Range(lo, hi) <==> lo <= x <= hi
  {
    if lo <= x <= hi { assert Range(lo, hi)[x - lo] == x; }
  }

  /** Every list of `ss` with `x` put in front. */
  function Prepend<T>(x: T, ss: seq<seq<T>>): (r: seq<seq<T>>)
    ensures |r| == |ss|
    ensures forall k :: 0 <= k < |r| ==> r[k] == [x] + ss[k]
  {
    seq(|ss|, k requires 0 <= k < |ss| => [x] + ss[k])
  }

  lemma InPrepend<T>(x: T, ss: seq<seq<T>>, c: seq<T>)
    ensures c in Prepend(x, ss) <==> c != [] && c[0] == x && c[1..] in ss
  {
    var r := Prepend(x, ss);
    if c in r {
      var k :| 0 <= k < |r| && r[k] == c;
      assert c[1..] == ss[k];
    }
    if c != [] && c[0] == x && c[1..] in ss {
      var k :| 0 <= k < |ss| && ss[k] == c[1..];
      assert r[k] == c;
    }
  }

  /** List filtering, `[x for x in s if p(x)]`. */
  function Filter<T(!new)>(s: seq<T>, p: T -> bool): (r: seq<T>)
    ensures |r| <= |s|
    ensures forall x :: x in r <==> x in s && p(x)
  {
    if s == [] then []
    else
      assert s == [s[0]] + s[1..];
      (if p(s[0]) then [s[0]] else []) + Filter(s[1..], p)
  }

  lemma FilterAll<T(!new)>(s: seq<T>, p: T -> bool)
    requires forall x :: x in s ==> p(x)
    ensures Filter(s, p) == s
  {
    if s != [] {
      FilterAll(s[1..], p);
      assert s == [s[0]] + s[1..];
    }
  }

  lemma {:induction false} FilterFilter<T(!new)>(s: seq<T>, p: T -> bool, q: T -> bool, r: T -> bool)
    requires forall x :: x in s ==> r(x) == (p(x) && q(x))
    ensures Filter(Filter(s, p), q) == Filter(s, r)
  {
    if s != [] {
      assert s == [s[0]] + s[1..];
      FilterFilter(s[1..], p, q, r);
      var rest := Filter(s[1..], p);
      if p(s[0]) {
        assert Filter(s, p) == [s[0]] + rest;
        assert Filter(s, p)[1..] == rest;
      } else {
        assert Filter(s, p) == rest;
      }
    }
  }

  lemma {:induction false} FilterSame<T(!new)>(s: seq<T>, p: T -> bool, q: T -> bool)
    requires forall x :: x in s ==> p(x) == q(x)
    ensures Filter(s, p) == Filter(s, q)
  {
    if s != [] {
      assert s == [s[0]] + s[1..];
      FilterSame(s[1..], p, q);
    }
  }

  /** Concatenation of a list of lists. */
  function Flatten<T(!new)>(ss: seq<seq<T>>): (r: seq<T>)
    ensures forall x :: x in r <==> exists k :: 0 <= k < |ss| && x in ss[k]
  {
    if ss == [] then []
    else
      var rest := Flatten(ss[1..]);
      assert forall k :: 0 < k < |ss| ==> ss[k] == ss[1..][k - 1];
      assert forall k :: 0 <= k < |ss[1..]| ==> ss[1..][k] == ss[k + 1];
      ss[0] + rest
  }

  lemma {:induction false} FlattenAppend<T(!new)>(a: seq<seq<T>>, b: seq<seq<T>>)
    ensures Flatten(a + b) == Flatten(a) + Flatten(b)
  {
    if a == [] {
      assert a + b == b;
    } else {
      assert (a + b)[1..] == a[1..] + b;
      FlattenAppend(a[1..], b);
    }
  }

  lemma FlattenOne<T(!new)>(x: seq<T>)
    ensures Flatten([x]) == x
  {
    assert [x][1..] == [];
  }

  // ---------------------------------------------------------------------
  // itertools.combinations
  // ---------------------------------------------------------------------

  /** `itertools.combinations(s, k)`: the length-k sublists of `s`, those
      holding `s[0]` first. */
  function Combinations<T(!new)>(s: seq<T>, k: nat): (r: seq<seq<T>>)
    ensures forall c :: c in r <==> IsCombination(s, k, c)
  {
    if k == 0 then [[]]
    else if s == [] then []
    else
      var a, b := Combinations(s[1..], k - 1), Combinations(s[1..], k);
      assert forall c :: c in Prepend(s[0], a) <==> c != [] && c[0] == s[0] && c[1..] in a by {
        forall c { InPrepend(s[0], a, c); }
      }
      Prepend(s[0], a) + b
  }

  /** Membership in `Combinations`, one list at a time. */
  ghost predicate IsCombination<T(!new)>(s: seq<T>, k: nat, c: seq<T>)
    decreases |s|
  {
    if k == 0 then c == []
    else
      && s != []
      && ((c != [] && c[0] == s[0] && IsCombination(s[1..], k - 1, c[1..]))
          || IsCombination(s[1..], k, c))
  }

  lemma {:induction false} IsCombinationShape<T(!new)>(s: seq<T>, k: nat, c: seq<T>)
    requires IsCombination(s, k, c)
    ensures |c| == k
    ensures forall x :: x in c ==> x in s
    ensures NoDup(s) ==> NoDup(c)
    decreases |s|
  {
    if k != 0 {
      var t := s[1..];
      assert s == [s[0]] + t;
      if c != [] && c[0] == s[0] && IsCombination(t, k - 1, c[1..]) {
        var u := c[1..];
        IsCombinationShape(t, k - 1, u);
        assert c == [c[0]] + u;
        if NoDup(s) {
          assert NoDup(t) by { assert forall j :: 0 <= j < |t| ==> t[j] == s[j + 1]; }
          assert forall j :: 0 < j < |s| ==> s[j] != s[0];
          assert s[0] !in t;
          forall i, j | 0 <= i < j < |c| ensures c[i] != c[j] {
            assert c[j] == u[j - 1] && c[j] in u;
            if i > 0 { assert c[i] == u[i - 1]; }
          }
        }
      } else {
        IsCombinationShape(t, k, c);
        if NoDup(s) {
          assert NoDup(t) by { assert forall j :: 0 <= j < |t| ==> t[j] == s[j + 1]; }
        }
      }
    }
  }

  /** A combination has length k and takes its elements from s, each
      position of s at most once. */
  lemma CombinationSound<T(!new)>(s: seq<T>, k: nat, c: seq<T>)
    requires c in Combinations(s, k)
    ensures |c| == k
    ensures forall x :: x in c ==> x in s
    ensures NoDup(s) ==> NoDup(c)
  {
    IsCombinationShape(s, k, c);
  }

  lemma {:induction false} IsCombinationComplete<T(!new)>(s: seq<T>, g: set<T>) returns (c: seq<T>)
    requires NoDup(s)
    requires forall x :: x in g ==> x in s
    ensures IsCombination(s, |g|, c) && (forall x :: x in c <==> x in g)
    decreases |s|
  {
    if g == {} {
      c := [];
    } else {
      assert s != [] by { var x :| x in g; assert x in s; }
      var t := s[1..];
      assert NoDup(t) by { assert forall j :: 0 <= j < |t| ==> t[j] == s[j + 1]; }
      assert forall j :: 0 < j < |s| ==> s[j] != s[0];
      assert forall x :: x in s ==> x == s[0] || x in t by { assert s == [s[0]] + t; }
      if s[0] in g {
        var g' := g - {s[0]};
        var c' := IsCombinationComplete(t, g');
        c := [s[0]] + c';
        assert c[1..] == c';
        assert |g| - 1 == |g'|;
      } else {
        c := IsCombinationComplete(t, g);
        assert s[0] !in c;
      }
    }
  }

  /** Every k-element set of elements of a list without repetitions is
      the element set of some combination of length k. */
  lemma CombinationComplete<T(!new)>(s: seq<T>, g: set<T>)
    requires NoDup(s)
    requires forall x :: x in g ==> x in s
    ensures exists c :: c in Combinations(s, |g|) && (forall x :: x in c <==> x in g)
  {
    var c := IsCombinationComplete(s, g);
    assert c in Combinations(s, |g|);
  }

  lemma {:induction false} SingletonCombinations(lo: int, hi: int, c: seq<int>)
    ensures IsCombination(Range(lo, hi), 1, c) <==> |c| == 1 && lo <= c[0] <= hi
    decreases hi - lo
  {
    var s := Range(lo, hi);
    if s != [] {
      assert s[1..] == Range(lo + 1, hi);
      SingletonCombinations(lo + 1, hi, c);
      if |c| == 1 { assert c[1..] == []; }
    }
  }

  lemma {:induction false} PairIsCombination(lo: int, hi: int, c: seq<int>)
    ensures IsCombination(Range(lo, hi), 2, c) <==> |c| == 2 && lo <= c[0] < c[1] <= hi
    decreases hi - lo
  {
    var s := Range(lo, hi);
    if s != [] {
      assert s[1..] == Range(lo + 1, hi);
      PairIsCombination(lo + 1, hi, c);
      if c != [] {
        SingletonCombinations(lo + 1, hi, c[1..]);
        if |c| == 2 { assert c[1..][0] == c[1]; }
      }
    }
  }

  /** The pairs `itertools.combinations(range(lo, hi + 1), 2)` yields: all
      a < b in lo..hi. */
  lemma PairCombinations(lo: int, hi: int, c: seq<int>)
    ensures c in Combinations(Range(lo, hi), 2) <==> |c| == 2 && lo <= c[0] < c[1] <= hi
  {
    PairIsCombination(lo, hi, c);
  }

  // ---------------------------------------------------------------------
  // itertools.combinations_with_replacement over range(lo, hi + 1)
  // ---------------------------------------------------------------------

  ghost predicate NonDecreasing(t: seq<int>) {
    forall i, j :: 0 <= i < j < |t| ==> t[i] <= t[j]
  }

  /** `itertools.combinations_with_replacement(range(lo, hi + 1), l)`. */
  function CombinationsWithReplacement(lo: int, hi: int, l: nat): seq<seq<int>>
    decreases l, if lo <= hi then hi - lo + 1 else 0
  {
    if l == 0 then [[]]
    else if lo > hi then []
    else Prepend(lo, CombinationsWithReplacement(lo, hi, l - 1)) + CombinationsWithReplacement(lo + 1, hi, l)
  }

  lemma NonDecreasingCons(x: int, u: seq<int>)
    ensures NonDecreasing([x] + u) <==> NonDecreasing(u) && forall y :: y in u ==> x <= y
  {
    var t := [x] + u;
    assert forall j :: 0 < j < |t| ==> t[j] == u[j - 1];
    if NonDecreasing(t) {
      forall y | y in u ensures x <= y {
        var j :| 0 <= j < |u| && u[j] == y;
        assert t[0] <= t[j + 1];
      }
      forall i, j | 0 <= i < j < |u| ensures u[i] <= u[j] {
        assert t[i + 1] <= t[j + 1];
      }
    }
    if NonDecreasing(u) && forall y :: y in u ==> x <= y {
      forall i, j | 0 <= i < j < |t| ensures t[i] <= t[j] {
        assert u[j - 1] in u;
        if i > 0 { assert u[i - 1] <= u[j - 1]; }
      }
    }
  }

  /** One unfolding of `CombinationsWithReplacement` as a membership test. */
  lemma InCombinationsWithReplacementStep(lo: int, hi: int, l: nat, t: seq<int>)
    requires l != 0 && lo <= hi
    ensures t in CombinationsWithReplacement(lo, hi, l)
        <==> (t != [] && t[0] == lo && t[1..] in CombinationsWithReplacement(lo, hi, l - 1))
             || t in CombinationsWithReplacement(lo + 1, hi, l)
  {
    var a := CombinationsWithReplacement(lo, hi, l - 1);
    var b := CombinationsWithReplacement(lo + 1, hi, l);
    assert CombinationsWithReplacement(lo, hi, l) == Prepend(lo, a) + b;
    InPrepend(lo, a, t);
  }

  ghost predicate Within(t: seq<int>, lo: int, hi: int) {
    forall x :: x in t ==> lo <= x <= hi
  }

  lemma WithinCons(t: seq<int>, lo: int, hi: int)
    requires t != []
    ensures Within(t, lo, hi) <==> lo <= t[0] <= hi && Within(t[1..], lo, hi)
  {
    var u := t[1..];
    assert t == [t[0]] + u;
    assert t[0] in t;
    if lo <= t[0] <= hi && Within(u, lo, hi) {
      forall x | x in t ensures lo <= x <= hi {
        if x != t[0] { assert x in u; }
      }
    }
    if Within(t, lo, hi) {
      forall x | x in u ensures lo <= x <= hi {
        assert x in t;
      }
    }
  }

  /** A list every element of which is above `lo` lies within lo + 1..hi. */
  lemma WithinRaise(t: seq<int>, lo: int, hi: int)
    requires Within(t, lo, hi) && forall x :: x in t ==> x != lo
    ensures Within(t, lo + 1, hi)
  {
  }

  lemma NonDecreasingHeadLeast(t: seq<int>)
    requires t != [] && NonDecreasing(t)
    ensures forall x :: x in t ==> t[0] <= x
  {
    forall x | x in t ensures t[0] <= x {
      var j :| 0 <= j < |t| && t[j] == x;
      if j > 0 { assert t[0] <= t[j]; }
    }
  }

  /** Membership in `CombinationsWithReplacement`, one list at a time. */
  ghost predicate IsCombinationWithReplacement(lo: int, hi: int, l: nat, t: seq<int>)
    decreases l, if lo <= hi then hi - lo + 1 else 0
  {
    if l == 0 then t == []
    else
      && lo <= hi
      && ((t != [] && t[0] == lo && IsCombinationWithReplacement(lo, hi, l - 1, t[1..]))
          || IsCombinationWithReplacement(lo + 1, hi, l, t))
  }

  lemma {:induction false} InCombinationsWithReplacementIs(lo: int, hi: int, l: nat, t: seq<int>)
    ensures t in CombinationsWithReplacement(lo, hi, l) <==> IsCombinationWithReplacement(lo, hi, l, t)
    decreases l, if lo <= hi then hi - lo + 1 else 0
  {
    if l != 0 && lo <= hi {
      InCombinationsWithReplacementStep(lo, hi, l, t);
      if t != [] {
        InCombinationsWithReplacementIs(lo, hi, l - 1, t[1..]);
      }
      InCombinationsWithReplacementIs(lo + 1, hi, l, t);
    }
  }

  lemma {:induction false} CombinationsWithReplacementSound(lo: int, hi: int, l: nat, t: seq<int>)
    requires IsCombinationWithReplacement(lo, hi, l, t)
    ensures |t| == l && NonDecreasing(t) && Within(t, lo, hi)
    decreases l, if lo <= hi then hi - lo + 1 else 0
  {
    if l != 0 {
      if t != [] && t[0] == lo && IsCombinationWithReplacement(lo, hi, l - 1, t[1..]) {
        var u := t[1..];
        CombinationsWithReplacementSound(lo, hi, l - 1, u);
        assert t == [lo] + u;
        NonDecreasingCons(lo, u);
        WithinCons(t, lo, hi);
      } else {
        CombinationsWithReplacementSound(lo + 1, hi, l, t);
        assert Within(t, lo, hi);
      }
    }
  }

  lemma {:induction false} CombinationsWithReplacementComplete(lo: int, hi: int, l: nat, t: seq<int>)
    requires |t| == l && NonDecreasing(t) && Within(t, lo, hi)
    ensures IsCombinationWithReplacement(lo, hi, l, t)
    decreases l, if lo <= hi then hi - lo + 1 else 0
  {
    if l != 0 {
      WithinCons(t, lo, hi);
      var u := t[1..];
      assert t == [t[0]] + u;
      NonDecreasingCons(t[0], u);
      if t[0] == lo {
        CombinationsWithReplacementComplete(lo, hi, l - 1, u);
      } else {
        NonDecreasingHeadLeast(t);
        WithinRaise(t, lo, hi);
        CombinationsWithReplacementComplete(lo + 1, hi, l, t);
      }
    }
  }

  /** The combinations with replacement are exactly the non-decreasing
      lists of length l over lo..hi. */
  lemma InCombinationsWithReplacement(lo: int, hi: int, l: nat, t: seq<int>)
    ensures t in CombinationsWithReplacement(lo, hi, l)
        <==> |t| == l && NonDecreasing(t) && forall x :: x in t ==> lo <= x <= hi
  {
    InCombinationsWithReplacementIs(lo, hi, l, t);
    if t in CombinationsWithReplacement(lo, hi, l) {
      CombinationsWithReplacementSound(lo, hi, l, t);
    }
    if |t| == l && NonDecreasing(t) && forall x :: x in t ==> lo <= x <= hi {
      assert Within(t, lo, hi);
      CombinationsWithReplacementComplete(lo, hi, l, t);
    }
  }

  // ---------------------------------------------------------------------
  // itertools.permutations
  // ---------------------------------------------------------------------

  function Without<T>(s: seq<T>, i: nat): (r: seq<T>)
    requires i < |s|
    ensures |r| == |s| - 1
    ensures multiset(r) == multiset(s) - multiset{s[i]}
  {
    assert s == s[..i] + [s[i]] + s[i + 1..];
    s[..i] + s[i + 1..]
  }

  /** `itertools.permutations(s)`: every ordering of the positions of s,
      the orderings that start with `s[0]` first. */
  function Perms<T>(s: seq<T>): seq<seq<T>>
    decreases |s|, 1, 0
  {
    if s == [] then [[]] else PermsFrom(s, 0)
  }

  function PermsFrom<T>(s: seq<T>, i: nat): seq<seq<T>>
    requires i <= |s|
    decreases |s|, 0, |s| - i
  {
    if i == |s| then []
    else Prepend(s[i], Perms(Without(s, i))) + PermsFrom(s, i + 1)
  }

  lemma {:induction false} PermsSound<T>(s: seq<T>, p: seq<T>)
    requires p in Perms(s)
    ensures multiset(p) == multiset(s)
    decreases |s|, 1, 0
  {
    if s != [] { PermsFromSound(s, 0, p); }
  }

  lemma {:induction false} PermsFromSound<T>(s: seq<T>, i: nat, p: seq<T>)
    requires i <= |s|
    requires p in PermsFrom(s, i)
    ensures multiset(p) == multiset(s)
    decreases |s|, 0, |s| - i
  {
    if i < |s| {
      var w := Without(s, i);
      InPrepend(s[i], Perms(w), p);
      if p in Prepend(s[i], Perms(w)) {
        PermsSound(w, p[1..]);
        assert p == [s[i]] + p[1..];
        assert s[i] in multiset(s);
      } else {
        PermsFromSound(s, i + 1, p);
      }
    }
  }

  lemma {:induction false} PermsFromContains<T>(s: seq<T>, i: nat, j: nat, p: seq<T>)
    requires i <= j < |s|
    requires p in Prepend(s[j], Perms(Without(s, j)))
    ensures p in PermsFrom(s, i)
    decreases j - i
  {
    if i < j { PermsFromContains(s, i + 1, j, p); }
  }

  lemma {:induction false} PermsComplete<T>(s: seq<T>, p: seq<T>)
    requires multiset(p) == multiset(s)
    ensures p in Perms(s)
    decreases |s|
  {
    if s == [] {
      assert |p| == |multiset(p)| == 0;
    } else {
      assert |p| == |multiset(p)| == |s|;
      assert p[0] in multiset(s);
      var j :| 0 <= j < |s| && s[j] == p[0];
      var w := Without(s, j);
      assert p == [p[0]] + p[1..];
      assert multiset(p[1..]) == multiset(p) - multiset{p[0]};
      PermsComplete(w, p[1..]);
      InPrepend(s[j], Perms(w), p);
      PermsFromContains(s, 0, j, p);
    }
  }

  /** The orderings are exactly the lists with the same elements, counted
      with repetition. */
  lemma InPerms<T>(s: seq<T>, p: seq<T>)
    ensures p in Perms(s) <==> multiset(p) == multiset(s)
  {
    if p in Perms(s) { PermsSound(s, p); }
    if multiset(p) == multiset(s) { PermsComplete(s, p); }
  }
}
