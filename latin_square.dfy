/**
 * The Latin squares the puzzle generator draws its hidden solution from:
 * the fixed 9 x 9 test square that the generator actually uses, and the
 * brute-force filler that is kept beside it but switched off.
 */
module LatinSquare {
  import opened Lists

  /** A list that holds every value of 1..n (for a list of length n: a
      permutation of 1..n). */
  ghost predicate HoldsOneTo(s: seq<int>, n: int) {
    forall v :: 1 <= v <= n ==> v in s
  }

  /** Column j of a square given as a list of rows. */
  function ColumnOf(a: seq<seq<int>>, j: int): (r: seq<int>)
    requires 0 <= j
    requires forall i :: 0 <= i < |a| ==> j < |a[i]|
    ensures |r| == |a| && forall i :: 0 <= i < |a| ==> r[i] == a[i][j]
  {
    seq(|a|, i requires 0 <= i < |a| => a[i][j])
  }

  /** An n x n square each of whose rows and columns is a permutation
      of 1..n. */
  ghost predicate IsLatinSquare(a: seq<seq<int>>, n: int) {
    && |a| == n
    && (forall i :: 0 <= i < n ==> |a[i]| == n && HoldsOneTo(a[i], n))
    && (forall j :: 0 <= j < n ==> HoldsOneTo(ColumnOf(a, j), n))
  }

  /** Row i of the fixed test square `notSoRandom`. */
  function NotSoRandomRow(i: int): (r: seq<int>)
    ensures |r| == 9
  {
    if i == 0 then [2, 8, 6, 1, 3, 9, 7, 4, 5]
    else if i == 1 then [1, 7, 4, 3, 6, 2, 5, 9, 8]
    else if i == 2 then [4, 2, 5, 7, 9, 8, 1, 6, 3]
    else if i == 3 then [8, 4, 3, 9, 1, 6, 2, 5, 7]
    else if i == 4 then [5, 6, 9, 4, 2, 3, 8, 7, 1]
    else if i == 5 then [9, 3, 8, 2, 7, 5, 4, 1, 6]
    else if i == 6 then [7, 9, 2, 6, 5, 1, 3, 8, 4]
    else if i == 7 then [3, 1, 7, 5, 8, 4, 6, 2, 9]
    else [6, 5, 1, 8, 4, 7, 9, 3, 2]
  }

  /** The fixed test square `notSoRandom`. */
  function NotSoRandom(): (a: seq<seq<int>>)
    ensures |a| == 9 && forall i :: 0 <= i < 9 ==> a[i] == NotSoRandomRow(i)
  {
    seq(9, i => NotSoRandomRow(i))
  }

  /** Every row of the test square is a permutation of 1..9. */
  lemma NotSoRandomRows()
    ensures forall i :: 0 <= i < 9 ==> HoldsOneTo(NotSoRandom()[i], 9)
  {
    var a := NotSoRandom();
    assert HoldsOneTo(a[0], 9) && HoldsOneTo(a[1], 9) && HoldsOneTo(a[2], 9);
    assert HoldsOneTo(a[3], 9) && HoldsOneTo(a[4], 9) && HoldsOneTo(a[5], 9);
    assert HoldsOneTo(a[6], 9) && HoldsOneTo(a[7], 9) && HoldsOneTo(a[8], 9);
  }

  /** Column j of the test square. */
  lemma NotSoRandomColumn(j: int)
    requires 0 <= j < 9
    ensures HoldsOneTo(ColumnOf(NotSoRandom(), j), 9)
  {
    var a := NotSoRandom();
    var c := ColumnOf(a, j);
    assert c == [a[0][j], a[1][j], a[2][j], a[3][j], a[4][j], a[5][j], a[6][j], a[7][j], a[8][j]];
    assert a[0] == NotSoRandomRow(0) && a[1] == NotSoRandomRow(1) && a[2] == NotSoRandomRow(2);
    assert a[3] == NotSoRandomRow(3) && a[4] == NotSoRandomRow(4) && a[5] == NotSoRandomRow(5);
    assert a[6] == NotSoRandomRow(6) && a[7] == NotSoRandomRow(7) && a[8] == NotSoRandomRow(8);
    if j == 0 { assert c == [2, 1, 4, 8, 5, 9, 7, 3, 6]; }
    else if j == 1 { assert c == [8, 7, 2, 4, 6, 3, 9, 1, 5]; }
    else if j == 2 { assert c == [6, 4, 5, 3, 9, 8, 2, 7, 1]; }
    else if j == 3 { assert c == [1, 3, 7, 9, 4, 2, 6, 5, 8]; }
    else if j == 4 { assert c == [3, 6, 9, 1, 2, 7, 5, 8, 4]; }
    else if j == 5 { assert c == [9, 2, 8, 6, 3, 5, 1, 4, 7]; }
    else if j == 6 { assert c == [7, 5, 1, 2, 8, 4, 3, 6, 9]; }
    else if j == 7 { assert c == [4, 9, 6, 5, 7, 1, 8, 2, 3]; }
    else { assert c == [5, 8, 3, 7, 1, 6, 4, 9, 2]; }
  }

  /** Every column of the test square is a permutation of 1..9. */
  lemma NotSoRandomColumns()
    ensures forall j :: 0 <= j < 9 ==> HoldsOneTo(ColumnOf(NotSoRandom(), j), 9)
  {
    forall j | 0 <= j < 9 ensures HoldsOneTo(ColumnOf(NotSoRandom(), j), 9) {
      NotSoRandomColumn(j);
    }
  }

  /** Every entry of the test square lies in 1..9. */
  lemma NotSoRandomEntries()
    ensures forall i, j :: 0 <= i < 9 && 0 <= j < 9 ==> 1 <= NotSoRandom()[i][j] <= 9
  {
    var a := NotSoRandom();
    forall i, j | 0 <= i < 9 && 0 <= j < 9 ensures 1 <= a[i][j] <= 9 {
      if i == 0 { assert a[0] == [2, 8, 6, 1, 3, 9, 7, 4, 5]; }
      else if i == 1 { assert a[1] == [1, 7, 4, 3, 6, 2, 5, 9, 8]; }
      else if i == 2 { assert a[2] == [4, 2, 5, 7, 9, 8, 1, 6, 3]; }
      else if i == 3 { assert a[3] == [8, 4, 3, 9, 1, 6, 2, 5, 7]; }
      else if i == 4 { assert a[4] == [5, 6, 9, 4, 2, 3, 8, 7, 1]; }
      else if i == 5 { assert a[5] == [9, 3, 8, 2, 7, 5, 4, 1, 6]; }
      else if i == 6 { assert a[6] == [7, 9, 2, 6, 5, 1, 3, 8, 4]; }
      else if i == 7 { assert a[7] == [3, 1, 7, 5, 8, 4, 6, 2, 9]; }
      else { assert a[8] == [6, 5, 1, 8, 4, 7, 9, 3, 2]; }
    }
  }

  /** Row i of the test square repeats no value. */
  lemma NotSoRandomRowDistinct(i: int)
    requires 0 <= i < 9
    ensures NoDup(NotSoRandomRow(i))
  {
    if i == 0 { assert NoDup([2, 8, 6, 1, 3, 9, 7, 4, 5]); }
    else if i == 1 { assert NoDup([1, 7, 4, 3, 6, 2, 5, 9, 8]); }
    else if i == 2 { assert NoDup([4, 2, 5, 7, 9, 8, 1, 6, 3]); }
    else if i == 3 { assert NoDup([8, 4, 3, 9, 1, 6, 2, 5, 7]); }
    else if i == 4 { assert NoDup([5, 6, 9, 4, 2, 3, 8, 7, 1]); }
    else if i == 5 { assert NoDup([9, 3, 8, 2, 7, 5, 4, 1, 6]); }
    else if i == 6 { assert NoDup([7, 9, 2, 6, 5, 1, 3, 8, 4]); }
    else if i == 7 { assert NoDup([3, 1, 7, 5, 8, 4, 6, 2, 9]); }
    else { assert NoDup([6, 5, 1, 8, 4, 7, 9, 3, 2]); }
  }

  /** Column j of the test square repeats no value. */
  lemma NotSoRandomColumnDistinct(j: int)
    requires 0 <= j < 9
    ensures NoDup(ColumnOf(NotSoRandom(), j))
  {
    var a := NotSoRandom();
    var c := ColumnOf(a, j);
    assert c == [a[0][j], a[1][j], a[2][j], a[3][j], a[4][j], a[5][j], a[6][j], a[7][j], a[8][j]];
    assert a[0] == NotSoRandomRow(0) && a[1] == NotSoRandomRow(1) && a[2] == NotSoRandomRow(2);
    assert a[3] == NotSoRandomRow(3) && a[4] == NotSoRandomRow(4) && a[5] == NotSoRandomRow(5);
    assert a[6] == NotSoRandomRow(6) && a[7] == NotSoRandomRow(7) && a[8] == NotSoRandomRow(8);
    if j == 0 { assert c == [2, 1, 4, 8, 5, 9, 7, 3, 6]; }
    else if j == 1 { assert c == [8, 7, 2, 4, 6, 3, 9, 1, 5]; }
    else if j == 2 { assert c == [6, 4, 5, 3, 9, 8, 2, 7, 1]; }
    else if j == 3 { assert c == [1, 3, 7, 9, 4, 2, 6, 5, 8]; }
    else if j == 4 { assert c == [3, 6, 9, 1, 2, 7, 5, 8, 4]; }
    else if j == 5 { assert c == [9, 2, 8, 6, 3, 5, 1, 4, 7]; }
    else if j == 6 { assert c == [7, 5, 1, 2, 8, 4, 3, 6, 9]; }
    else if j == 7 { assert c == [4, 9, 6, 5, 7, 1, 8, 2, 3]; }
    else { assert c == [5, 8, 3, 7, 1, 6, 4, 9, 2]; }
  }

  /** No two cells of the test square in one row, or in one column, hold
      the same value. */
  lemma NotSoRandomDistinct()
    ensures forall i, j, k :: 0 <= i < 9 && 0 <= j < k < 9 ==> NotSoRandom()[i][j] != NotSoRandom()[i][k]
    ensures forall i, k, j :: 0 <= i < k < 9 && 0 <= j < 9 ==> NotSoRandom()[i][j] != NotSoRandom()[k][j]
  {
    var a := NotSoRandom();
    forall i, j, k | 0 <= i < 9 && 0 <= j < k < 9 ensures a[i][j] != a[i][k] {
      NotSoRandomRowDistinct(i);
    }
    forall i, k, j | 0 <= i < k < 9 && 0 <= j < 9 ensures a[i][j] != a[k][j] {
      NotSoRandomColumnDistinct(j);
      assert ColumnOf(a, j)[i] == a[i][j] && ColumnOf(a, j)[k] == a[k][j];
    }
  }

  /** `randomLatinSquare(N)`: whatever N is, the fixed 9 x 9 test square,
      which is a Latin square. */
  function RandomLatinSquare(n: int): (a: seq<seq<int>>)
    ensures IsLatinSquare(a, 9)
    ensures forall i, j :: 0 <= i < 9 && 0 <= j < 9 ==> 1 <= a[i][j] <= 9
  {
    NotSoRandomRows();
    NotSoRandomColumns();
    NotSoRandomEntries();
    NotSoRandom()
  }

  /** Some entry of row i left of column j equals v. */
  predicate RowPrefixHas(a: array2<int>, i: int, j: int, v: int)
    requires 0 <= i < a.Length0 && 0 <= j <= a.Length1
    reads a
  {
    exists k :: 0 <= k < j && a[i, k] == v
  }

  /** Some entry of column j above row i equals v. */
  predicate ColumnPrefixHas(a: array2<int>, i: int, j: int, v: int)
    requires 0 <= i <= a.Length0 && 0 <= j < a.Length1
    reads a
  {
    exists k :: 0 <= k < i && a[k, j] == v
  }

  /** Value v is already held left of (i, j) in its row or above it in its column. */
  predicate Clashes(a: array2<int>, i: int, j: int, v: int)
    requires 0 <= i < a.Length0 && 0 <= j < a.Length1
    reads a
  {
    RowPrefixHas(a, i, j, v) || ColumnPrefixHas(a, i, j, v)
  }

  /** Cell (p, q) comes before cell (i, j) in row-major order. */
  predicate Before(p: int, q: int, i: int, j: int) {
    p < i || (p == i && q < j)
  }

  /**
   * `bruteForceLatinSquare(N)`. The shuffled `intList` at cell (i, j) is
   * `order(i, j)`. The source raises an IndexError when no value of the
   * list fits a cell; the model then reports `ok == false`. Every cell
   * filled gets a value of 1..n that no earlier cell of its row or of
   * its column holds.
   */
  method BruteForceLatinSquare(n: nat, order: (int, int) -> seq<int>) returns (a: array2<int>, ok: bool)
    requires forall i, j :: 0 <= i < n && 0 <= j < n ==>
      |order(i, j)| == n && forall x :: x in order(i, j) ==> 1 <= x <= n
    ensures fresh(a) && a.Length0 == n && a.Length1 == n
    ensures ok ==> forall i, j :: 0 <= i < n && 0 <= j < n ==> 1 <= a[i, j] <= n
    ensures ok ==> forall i, j, k :: 0 <= i < n && 0 <= k < j < n ==> a[i, j] != a[i, k]
    ensures ok ==> forall i, j, k :: 0 <= k < i < n && 0 <= j < n ==> a[i, j] != a[k, j]
    ensures !ok ==> exists i, j ::
                      0 <= i < n && 0 <= j < n && forall x :: x in order(i, j) ==> Clashes(a, i, j, x)
  {
    a := new int[n, n]((i, j) => 0);
    ok := true;
    var i := 0;
    while i < n
      invariant 0 <= i <= n
      invariant forall p, q :: 0 <= p < n && 0 <= q < n ==>
        if Before(p, q, i, 0) then 1 <= a[p, q] <= n else a[p, q] == 0
      invariant forall p, q, r :: 0 <= p < n && 0 <= r < q < n && Before(p, q, i, 0) ==> a[p, q] != a[p, r]
      invariant forall p, q, r :: 0 <= r < p < n && 0 <= q < n && Before(p, q, i, 0) ==> a[p, q] != a[r, q]
    {
      var j := 0;
      while j < n
        invariant 0 <= j <= n
        invariant forall p, q :: 0 <= p < n && 0 <= q < n ==>
          if Before(p, q, i, j) then 1 <= a[p, q] <= n else a[p, q] == 0
        invariant forall p, q, r :: 0 <= p < n && 0 <= r < q < n && Before(p, q, i, j) ==> a[p, q] != a[p, r]
        invariant forall p, q, r :: 0 <= r < p < n && 0 <= q < n && Before(p, q, i, j) ==> a[p, q] != a[r, q]
      {
        ok := FillCell(a, n, i, j, order(i, j));
        if !ok {
          return;
        }
        j := j + 1;
      }
      i := i + 1;
    }
  }

  /**
   * The innermost loop of `bruteForceLatinSquare`: cell (i, j) takes the
   * first value of intList that no earlier cell of its row or column
   * holds; `ok == false` when the list runs out.
   */
  method FillCell(a: array2<int>, n: nat, i: nat, j: nat, intList: seq<int>) returns (ok: bool)
    requires a.Length0 == n && a.Length1 == n && i < n && j < n
    requires |intList| == n && forall x :: x in intList ==> 1 <= x <= n
    requires forall p, q :: 0 <= p < n && 0 <= q < n ==>
      if Before(p, q, i, j) then 1 <= a[p, q] <= n else a[p, q] == 0
    requires forall p, q, r :: 0 <= p < n && 0 <= r < q < n && Before(p, q, i, j) ==> a[p, q] != a[p, r]
    requires forall p, q, r :: 0 <= r < p < n && 0 <= q < n && Before(p, q, i, j) ==> a[p, q] != a[r, q]
    modifies a
    ensures ok ==> forall p, q :: 0 <= p < n && 0 <= q < n ==>
      if Before(p, q, i, j + 1) then 1 <= a[p, q] <= n else a[p, q] == 0
    ensures ok ==> forall p, q, r :: 0 <= p < n && 0 <= r < q < n && Before(p, q, i, j + 1) ==> a[p, q] != a[p, r]
    ensures ok ==> forall p, q, r :: 0 <= r < p < n && 0 <= q < n && Before(p, q, i, j + 1) ==> a[p, q] != a[r, q]
    ensures ok ==> exists ind ::
                     0 <= ind < n && a[i, j] == intList[ind] && forall m :: 0 <= m < ind ==> Clashes(a, i, j, intList[m])
    ensures !ok ==> a[i, j] == 0 && forall x :: x in intList ==> Clashes(a, i, j, x)
  {
    var ind := 0;
    while a[i, j] == 0
      invariant 0 <= ind <= n
      invariant forall m :: 0 <= m < ind ==> Clashes(a, i, j, intList[m])
      invariant a[i, j] != 0 ==> ind < n && a[i, j] == intList[ind]
      invariant forall p, q :: 0 <= p < n && 0 <= q < n && (p, q) != (i, j) ==>
        if Before(p, q, i, j) then 1 <= a[p, q] <= n else a[p, q] == 0
      invariant a[i, j] == 0 || 1 <= a[i, j] <= n
      invariant forall p, q, r :: 0 <= p < n && 0 <= r < q < n && Before(p, q, i, j + 1) ==> a[p, q] != a[p, r]
      invariant forall p, q, r :: 0 <= r < p < n && 0 <= q < n && Before(p, q, i, j + 1) ==> a[p, q] != a[r, q]
      decreases n - ind, if a[i, j] == 0 then 1 else 0
    {
      if ind == n {
        // `intList[ind]` raises IndexError
        forall x | x in intList ensures Clashes(a, i, j, x) {
          var m :| 0 <= m < n && intList[m] == x;
        }
        return false;
      }
      var randInt := intList[ind];
      assert randInt in intList;
      if !RowPrefixHas(a, i, j, randInt) && !ColumnPrefixHas(a, i, j, randInt) {
        SetCell(a, i, j, randInt);
      } else {
        ind := ind + 1;
      }
    }
    return true;
  }

  /** `a[i, j] = v`: the values already held left of (i, j) in its row
      and above it in its column stay where they are. */
  method SetCell(a: array2<int>, i: nat, j: nat, v: int)
    requires i < a.Length0 && j < a.Length1
    modifies a
    ensures a[i, j] == v
    ensures forall p, q :: 0 <= p < a.Length0 && 0 <= q < a.Length1 && (p, q) != (i, j) ==> a[p, q] == old(a[p, q])
    ensures forall x :: old(Clashes(a, i, j, x)) ==> Clashes(a, i, j, x)
  {
    label before:
    a[i, j] := v;
    forall x | old@before(Clashes(a, i, j, x)) ensures Clashes(a, i, j, x) {
      if old@before(RowPrefixHas(a, i, j, x)) {
        var k :| 0 <= k < j && old@before(a[i, k]) == x;
        assert a[i, k] == x;
      } else {
        var k :| 0 <= k < i && old@before(a[k, j]) == x;
        assert a[k, j] == x;
      }
    }
  }
}
