/**
 * Small list utilities that the KenKen code takes from Python itself:
 * `list.remove`, the builtin `sorted`, `sum` and `product` over integer
 * lists, and the ordering Python uses to compare tuples.
 */
module Lists {

  datatype Option<+T> = None | Some(value: T)

  /** No element occurs twice. */
  ghost predicate NoDup<T>(s: seq<T>) {
    forall i, j :: 0 <= i < j < |s| ==> s[i] != s[j]
  }

  /** Python's `list.remove(x)` where a missing element is ignored
      (the callers catch the ValueError): the first occurrence goes. */
  function RemoveFirst<T(==)>(s: seq<T>, x: T): seq<T>
  {
    if s == [] then []
    else if s[0] == x then s[1..]
    else [s[0]] + RemoveFirst(s[1..], x)
  }

  /** `remove` takes one occurrence of x away, if there is one, and
      nothing else. */
  lemma {:induction false} RemoveFirstMeans<T>(s: seq<T>, x: T)
    ensures x !in s ==> RemoveFirst(s, x) == s
    ensures multiset(RemoveFirst(s, x)) == multiset(s) - multiset{x}
    ensures |RemoveFirst(s, x)| == if x in s then |s| - 1 else |s|
    ensures forall y :: y in RemoveFirst(s, x) ==> y in s
  {
    if s != [] {
      assert s == [s[0]] + s[1..];
      RemoveFirstMeans(s[1..], x);
    }
  }

  /** `remove` keeps only elements of the list. */
  lemma {:induction false} RemoveFirstSubset<T>(s: seq<T>, x: T)
    ensures forall y :: y in RemoveFirst(s, x) ==> y in s
  {
    if s != [] && s[0] != x {
      RemoveFirstSubset(s[1..], x);
    }
  }

  lemma {:induction false} RemoveFirstKeepsOthers<T>(s: seq<T>, x: T, y: T)
    requires y != x
    ensures y in RemoveFirst(s, x) <==> y in s
  {
    RemoveFirstMeans(s, x);
    assert y in multiset(RemoveFirst(s, x)) <==> y in multiset(s);
  }

  /** Removing from a list without repetitions removes the element entirely. */
  lemma {:induction false} RemoveFirstNoDup<T>(s: seq<T>, x: T)
    requires NoDup(s)
    ensures x !in RemoveFirst(s, x)
    ensures NoDup(RemoveFirst(s, x))
    decreases |s|
  {
    if s == [] {
    } else if s[0] == x {
      assert RemoveFirst(s, x) == s[1..];
      assert forall k :: 0 <= k < |s[1..]| ==> s[1..][k] == s[k + 1];
    } else {
      var t := s[1..];
      assert NoDup(t) by {
        assert forall k :: 0 <= k < |t| ==> t[k] == s[k + 1];
      }
      var rest := RemoveFirst(t, x);
      RemoveFirstNoDup(t, x);
      RemoveFirstSubset(t, x);
      assert s[0] !in t by {
        assert forall k :: 0 <= k < |t| ==> t[k] == s[k + 1] && s[k + 1] != s[0];
      }
      assert s[0] !in rest;
      var r := [s[0]] + rest;
      assert r == RemoveFirst(s, x);
      assert forall i :: 0 < i < |r| ==> r[i] == rest[i - 1];
    }
  }

  /** Removing an element keeps a strictly increasing list strictly increasing. */
  lemma {:induction false} RemoveFirstIncreasing<T>(s: seq<T>, x: T, lt: (T, T) -> bool)
    requires StrictlyIncreasing(s, lt)
    ensures StrictlyIncreasing(RemoveFirst(s, x), lt)
    decreases |s|
  {
    if s != [] && s[0] != x {
      var t := s[1..];
      assert StrictlyIncreasing(t, lt) by {
        assert forall k :: 0 <= k < |t| ==> t[k] == s[k + 1];
      }
      RemoveFirstIncreasing(t, x, lt);
      RemoveFirstSubset(t, x);
      var rest := RemoveFirst(t, x);
      assert forall y :: y in t ==> lt(s[0], y) by {
        assert forall k :: 0 <= k < |t| ==> t[k] == s[k + 1];
      }
      var r := [s[0]] + rest;
      assert r == RemoveFirst(s, x);
      forall i, j | 0 <= i < j < |r| ensures lt(r[i], r[j]) {
        assert r[j] == rest[j - 1];
        assert rest[j - 1] in rest;
        assert r[j] in t;
        if i > 0 {
          assert r[i] == rest[i - 1];
          assert lt(rest[i - 1], rest[j - 1]);
        } else {
          assert r[i] == s[0];
        }
      }
    }
  }

  /** `scipy.sum` over an integer list (0 for the empty list). */
  function Sum(s: seq<int>): int {
    if s == [] then 0 else s[0] + Sum(s[1..])
  }

  /** `scipy.prod` over an integer list (1 for the empty list). */
  function Product(s: seq<int>): int {
    if s == [] then 1 else s[0] * Product(s[1..])
  }

  lemma SumProductPair(v: seq<int>)
    requires |v| == 2
    ensures Sum(v) == v[0] + v[1] && Product(v) == v[0] * v[1]
  {
    var t := v[1..];
    assert t[1..] == [];
    assert Sum(t) == t[0] + Sum(t[1..]);
    assert Product(t) == t[0] * Product(t[1..]);
  }

  lemma {:induction false} SumAppend(a: seq<int>, b: seq<int>)
    ensures Sum(a + b) == Sum(a) + Sum(b)
  {
    if a != [] {
      assert (a + b)[1..] == a[1..] + b;
      SumAppend(a[1..], b);
    } else {
      assert a + b == b;
    }
  }

  lemma {:induction false} ProductAppend(a: seq<int>, b: seq<int>)
    ensures Product(a + b) == Product(a) * Product(b)
  {
    if a != [] {
      assert (a + b)[1..] == a[1..] + b;
      ProductAppend(a[1..], b);
      assert Product(a + b) == a[0] * (Product(a[1..]) * Product(b));
    } else {
      assert a + b == b;
    }
  }

  lemma SumRemoveAt(b: seq<int>, i: int)
    requires 0 <= i < |b|
    ensures Sum(b) == b[i] + Sum(b[..i] + b[i + 1..])
  {
    var pre, tail := b[..i], b[i..];
    assert b == pre + tail;
    assert tail[0] == b[i] && tail[1..] == b[i + 1..];
    assert Sum(tail) == b[i] + Sum(b[i + 1..]);
    SumAppend(pre, tail);
    SumAppend(pre, b[i + 1..]);
  }

  lemma MulSwap(p: int, x: int, q: int)
    ensures p * (x * q) == x * (p * q)
  {
  }

  lemma ProductRemoveAt(b: seq<int>, i: int)
    requires 0 <= i < |b|
    ensures Product(b) == b[i] * Product(b[..i] + b[i + 1..])
  {
    var pre, tail := b[..i], b[i..];
    assert b == pre + tail;
    assert tail[0] == b[i] && tail[1..] == b[i + 1..];
    assert Product(tail) == b[i] * Product(b[i + 1..]);
    ProductAppend(pre, tail);
    ProductAppend(pre, b[i + 1..]);
    MulSwap(Product(b[..i]), b[i], Product(b[i + 1..]));
  }

  /** Sum and product only depend on the multiset of the values, so every
      ordering of a combination has the combination's sum and product. */
  lemma {:induction false} SumProductPermutation(a: seq<int>, b: seq<int>)
    requires multiset(a) == multiset(b)
    ensures Sum(a) == Sum(b) && Product(a) == Product(b)
    decreases |a|
  {
    if a != [] {
      assert a[0] in multiset(b);
      var i :| 0 <= i < |b| && b[i] == a[0];
      var rest := b[..i] + b[i + 1..];
      MultisetRemoveAt(b, i);
      MultisetTail(a);
      SumProductPermutation(a[1..], rest);
      SumRemoveAt(b, i);
      ProductRemoveAt(b, i);
    } else {
      assert |b| == |multiset(b)| == 0;
    }
  }

  lemma MultisetRemoveAt<T>(b: seq<T>, i: int)
    requires 0 <= i < |b|
    ensures multiset(b[..i] + b[i + 1..]) == multiset(b) - multiset{b[i]}
  {
    assert b == b[..i] + [b[i]] + b[i + 1..];
    assert multiset(b) == multiset(b[..i]) + multiset{b[i]} + multiset(b[i + 1..]);
  }

  lemma MultisetTail<T>(a: seq<T>)
    requires a != []
    ensures multiset(a[1..]) == multiset(a) - multiset{a[0]}
  {
    assert a == [a[0]] + a[1..];
  }

  // ---------------------------------------------------------------------
  // Orders and Python's `sorted`
  // ---------------------------------------------------------------------

  /** `lt` is a strict total order. */
  ghost predicate StrictTotalOrder<T(!new)>(lt: (T, T) -> bool) {
    && (forall x :: !lt(x, x))
    && (forall x, y, z :: lt(x, y) && lt(y, z) ==> lt(x, z))
    && (forall x, y :: x != y ==> lt(x, y) || lt(y, x))
  }

  ghost predicate Sorted<T>(s: seq<T>, lt: (T, T) -> bool) {
    forall i, j :: 0 <= i < j < |s| ==> !lt(s[j], s[i])
  }

  ghost predicate StrictlyIncreasing<T>(s: seq<T>, lt: (T, T) -> bool) {
    forall i, j :: 0 <= i < j < |s| ==> lt(s[i], s[j])
  }

  function IntLess(a: int, b: int): bool { a < b }

  /** Python's ordering of tuples of integers (lexicographic, a proper
      prefix is smaller). */
  function LexLess(a: seq<int>, b: seq<int>): bool {
    if a == [] then b != []
    else if b == [] then false
    else a[0] < b[0] || (a[0] == b[0] && LexLess(a[1..], b[1..]))
  }

  /** Python's ordering of coordinate pairs. */
  function CellLess(a: (int, int), b: (int, int)): bool {
    a.0 < b.0 || (a.0 == b.0 && a.1 < b.1)
  }

  lemma IntLessOrder()
    ensures StrictTotalOrder(IntLess)
  {
  }

  lemma CellLessOrder()
    ensures StrictTotalOrder(CellLess)
  {
  }

  lemma {:induction false} LexIrreflexive(a: seq<int>)
    ensures !LexLess(a, a)
  {
    if a != [] { LexIrreflexive(a[1..]); }
  }

  lemma {:induction false} LexTransitive(a: seq<int>, b: seq<int>, c: seq<int>)
    requires LexLess(a, b) && LexLess(b, c)
    ensures LexLess(a, c)
  {
    if a != [] && b != [] && c != [] && a[0] == b[0] == c[0] {
      LexTransitive(a[1..], b[1..], c[1..]);
    }
  }

  lemma {:induction false} LexTotal(a: seq<int>, b: seq<int>)
    requires a != b
    ensures LexLess(a, b) || LexLess(b, a)
  {
    if a != [] && b != [] && a[0] == b[0] {
      assert a == [a[0]] + a[1..] && b == [b[0]] + b[1..];
      LexTotal(a[1..], b[1..]);
    }
  }

  lemma LexLessOrder()
    ensures StrictTotalOrder(LexLess)
  {
    forall a ensures !LexLess(a, a) { LexIrreflexive(a); }
    forall a, b, c | LexLess(a, b) && LexLess(b, c) ensures LexLess(a, c) { LexTransitive(a, b, c); }
    forall a, b | a != b ensures LexLess(a, b) || LexLess(b, a) { LexTotal(a, b); }
  }

  function Insert<T(==,!new)>(x: T, s: seq<T>, lt: (T, T) -> bool): (r: seq<T>)
    ensures multiset(r) == multiset(s) + multiset{x}
    ensures forall y :: y in r <==> y == x || y in s
  {
    if s == [] then [x]
    else if lt(s[0], x) then
      assert s == [s[0]] + s[1..];
      [s[0]] + Insert(x, s[1..], lt)
    else
      [x] + s
  }

  lemma {:induction false} InsertSorted<T(!new)>(x: T, s: seq<T>, lt: (T, T) -> bool)
    requires StrictTotalOrder(lt)
    requires Sorted(s, lt)
    ensures Sorted(Insert(x, s, lt), lt)
  {
    if s != [] {
      var r := Insert(x, s, lt);
      if lt(s[0], x) {
        var rest := Insert(x, s[1..], lt);
        InsertSorted(x, s[1..], lt);
        assert r == [s[0]] + rest;
        forall j | 0 < j < |r| ensures !lt(r[j], s[0]) {
          assert r[j] == rest[j - 1];
          assert r[j] in rest;
          if r[j] != x {
            var k :| 0 <= k < |s[1..]| && s[1..][k] == r[j];
            assert s[k + 1] == r[j];
          }
        }
      } else {
        assert r == [x] + s;
        forall j | 0 < j < |r| ensures !lt(r[j], x) {
          assert r[j] == s[j - 1];
          if j > 1 { assert !lt(s[j - 1], s[0]); }
        }
      }
    }
  }

  /** Python's builtin `sorted`. */
  function Sort<T(==,!new)>(s: seq<T>, lt: (T, T) -> bool): (r: seq<T>)
    requires StrictTotalOrder(lt)
    ensures multiset(r) == multiset(s)
    ensures Sorted(r, lt)
  {
    if s == [] then []
    else
      assert s == [s[0]] + s[1..];
      InsertSorted(s[0], Sort(s[1..], lt), lt);
      Insert(s[0], Sort(s[1..], lt), lt)
  }

  /** Drops adjacent repeats of a sorted list: the list that the
      source's `removeDuplicates` loop leaves over. */
  function DedupSorted<T(==,!new)>(s: seq<T>, lt: (T, T) -> bool): (r: seq<T>)
    requires StrictTotalOrder(lt)
    requires Sorted(s, lt)
    ensures StrictlyIncreasing(r, lt)
    ensures forall x :: x in r <==> x in s
    ensures s != [] ==> r != [] && r[0] == s[0]
  {
    if |s| <= 1 then s
    else if s[0] == s[1] then
      DedupSorted(s[1..], lt)
    else
      var rest := DedupSorted(s[1..], lt);
      assert lt(s[0], s[1]);
      assert forall y | y in s[1..] :: lt(s[0], y) by {
        forall y | y in s[1..] ensures lt(s[0], y) {
          var k :| 0 <= k < |s[1..]| && s[1..][k] == y;
          if k > 0 { assert !lt(s[k + 1], s[1]); }
        }
      }
      assert s == [s[0]] + s[1..];
      var r := [s[0]] + rest;
      assert forall j :: 0 < j < |r| ==> r[j] in rest;
      r
  }

  /** The sorted list of the distinct elements of `s`. */
  function Dedup<T(==,!new)>(s: seq<T>, lt: (T, T) -> bool): (r: seq<T>)
    requires StrictTotalOrder(lt)
    ensures StrictlyIncreasing(r, lt)
    ensures forall x :: x in r <==> x in s
  {
    var t := Sort(s, lt);
    assert forall x :: x in t <==> x in multiset(s);
    DedupSorted(t, lt)
  }

  /** The head of a strictly increasing list is its least element. */
  lemma FirstIsLeast<T(!new)>(s: seq<T>, x: T, lt: (T, T) -> bool)
    requires StrictlyIncreasing(s, lt)
    requires x in s
    ensures x == s[0] || lt(s[0], x)
  {
    var k :| 0 <= k < |s| && s[k] == x;
    assert k == 0 || lt(s[0], s[k]);
  }

  /** A strictly increasing list is determined by its elements, so two
      lists with the same distinct values deduplicate to the same list. */
  lemma {:induction false} StrictlyIncreasingUnique<T(!new)>(a: seq<T>, b: seq<T>, lt: (T, T) -> bool)
    requires StrictTotalOrder(lt)
    requires StrictlyIncreasing(a, lt) && StrictlyIncreasing(b, lt)
    requires forall x :: x in a <==> x in b
    ensures a == b
  {
    if a != [] { assert a[0] in a; }
    if b != [] { assert b[0] in b; }
    if a != [] && b != [] {
      FirstIsLeast(a, b[0], lt);
      FirstIsLeast(b, a[0], lt);
      assert a[0] == b[0];
      forall x ensures x in a[1..] <==> x in b[1..] {
        if x in a[1..] {
          var k :| 0 <= k < |a[1..]| && a[1..][k] == x;
          assert lt(a[0], a[k + 1]);
          assert x in b;
        }
        if x in b[1..] {
          var k :| 0 <= k < |b[1..]| && b[1..][k] == x;
          assert lt(b[0], b[k + 1]);
          assert x in a;
        }
      }
      StrictlyIncreasingUnique(a[1..], b[1..], lt);
      assert a == [a[0]] + a[1..] && b == [b[0]] + b[1..];
    }
  }

  /** Deduplication only depends on the set of elements. */
  lemma DedupSameElements<T(!new)>(s: seq<T>, t: seq<T>, lt: (T, T) -> bool)
    requires StrictTotalOrder(lt)
    requires forall x :: x in s <==> x in t
    ensures Dedup(s, lt) == Dedup(t, lt)
  {
    StrictlyIncreasingUnique(Dedup(s, lt), Dedup(t, lt), lt);
  }

  lemma StrictlyIncreasingNoDup<T(!new)>(s: seq<T>, lt: (T, T) -> bool)
    requires StrictTotalOrder(lt)
    requires StrictlyIncreasing(s, lt)
    ensures NoDup(s)
  {
  }

  /** x put into the increasing list s at its place, unless s holds it. */
  function InsertUnique(x: int, s: seq<int>): seq<int> {
    if s == [] then [x]
    else if x < s[0] then [x] + s
    else if x == s[0] then s
    else [s[0]] + InsertUnique(x, s[1..])
  }

  lemma {:induction false} InsertUniqueMeans(x: int, s: seq<int>)
    requires StrictlyIncreasing(s, IntLess)
    ensures StrictlyIncreasing(InsertUnique(x, s), IntLess)
    ensures forall y :: y in InsertUnique(x, s) <==> y == x || y in s
  {
    if s != [] && x > s[0] {
      var t := InsertUnique(x, s[1..]);
      assert StrictlyIncreasing(s[1..], IntLess);
      InsertUniqueMeans(x, s[1..]);
      forall y | y in t ensures s[0] < y {
        if y != x {
          var k :| 0 <= k < |s[1..]| && s[1..][k] == y;
          assert s[k + 1] == y;
        }
      }
      ConsIncreasing(s[0], t);
      assert InsertUnique(x, s) == [s[0]] + t;
      assert s == [s[0]] + s[1..];
    }
  }

  /** A value below every element of a strictly increasing list can go in front. */
  lemma ConsIncreasing(a: int, t: seq<int>)
    requires StrictlyIncreasing(t, IntLess) && forall y :: y in t ==> a < y
    ensures StrictlyIncreasing([a] + t, IntLess)
  {
    var r := [a] + t;
    forall i, j | 0 <= i < j < |r| ensures IntLess(r[i], r[j]) {
      assert r[j] == t[j - 1] && t[j - 1] in t;
    }
  }

  /** The sorted distinct elements of s, built by insertion. */
  function UniqueSorted(s: seq<int>): seq<int> {
    if s == [] then [] else InsertUnique(s[0], UniqueSorted(s[1..]))
  }

  lemma {:induction false} UniqueSortedMeans(s: seq<int>)
    ensures StrictlyIncreasing(UniqueSorted(s), IntLess)
    ensures forall x :: x in UniqueSorted(s) <==> x in s
  {
    if s != [] {
      UniqueSortedMeans(s[1..]);
      InsertUniqueMeans(s[0], UniqueSorted(s[1..]));
      assert s == [s[0]] + s[1..];
    }
  }

  /** Building by insertion gives what `removeDuplicates` gives. */
  lemma UniqueSortedIsDedup(s: seq<int>)
    ensures UniqueSorted(s) == Dedup(s, IntLess)
  {
    IntLessOrder();
    UniqueSortedMeans(s);
    var u, d := UniqueSorted(s), Dedup(s, IntLess);
    assert forall x :: x in u <==> x in d;
    StrictlyIncreasingUnique(u, d, IntLess);
  }
}
