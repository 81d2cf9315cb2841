/**
 * The cage generator: a partition of the N x N board into cages grown
 * cell by cell from roots taken out of the list of free cells, after
 * which every one-cell cage beyond the first few is merged into its
 * shortest neighbouring cage. The source's random draws (`randrange`,
 * `shuffle`, `desiredLength`) are arguments.
 */
module KenKenCage {
  import opened Lists
  import opened KenKenClass

  // -----------------------------------------------------------------------
  // Growing into a neighbour: findNeighbor
  // -----------------------------------------------------------------------

  const UP := 0
  const DOWN := 1
  const LEFT := 2
  const RIGHT := 3

  /** `neighborIndex`'s starting value, which the search never returns. */
  const NO_CELL: Cell := (-1, -1)

  /** An order `random.shuffle` can give the four directions. */
  predicate IsShuffle(dirs: seq<int>) {
    |dirs| == 4 && UP in dirs && DOWN in dirs && LEFT in dirs && RIGHT in dirs
  }

  /** The cell one step from c in direction dir on an n x n board, unless
      c lies on the edge that step crosses; any direction other than UP,
      DOWN and LEFT is RIGHT. */
  function Step(n: int, c: Cell, dir: int): Option<Cell> {
    if dir == UP then (if c.1 != n - 1 then Some((c.0, c.1 + 1)) else None)
    else if dir == DOWN then (if c.1 != 0 then Some((c.0, c.1 - 1)) else None)
    else if dir == LEFT then (if c.0 != 0 then Some((c.0 - 1, c.1)) else None)
    else if c.0 != n - 1 then Some((c.0 + 1, c.1)) else None
  }

  /** `findNeighbor` may grow a cage from c into d. */
  predicate Neighbor(n: int, c: Cell, d: Cell) {
    && d != NO_CELL
    && (Step(n, c, UP) == Some(d) || Step(n, c, DOWN) == Some(d)
        || Step(n, c, LEFT) == Some(d) || Step(n, c, RIGHT) == Some(d))
  }

  /** Direction dir leads from c to a cell of free. */
  predicate LeadsInto(n: int, c: Cell, dir: int, free: seq<Cell>) {
    Step(n, c, dir).Some? && Step(n, c, dir).value != NO_CELL && Step(n, c, dir).value in free
  }

  /** The cell reached by the first direction of dirs that leads from c
      into free. */
  function FirstStep(n: int, c: Cell, dirs: seq<int>, free: seq<Cell>): Option<Cell> {
    if dirs == [] then None
    else if LeadsInto(n, c, dirs[0], free) then Step(n, c, dirs[0])
    else FirstStep(n, c, dirs[1..], free)
  }

  /** The first direction found is a way into free, and there is none
      exactly when no direction of dirs leads into free. */
  lemma {:induction false} FirstStepDirs(n: int, c: Cell, dirs: seq<int>, free: seq<Cell>)
    ensures FirstStep(n, c, dirs, free).Some? ==>
      exists dir :: dir in dirs && LeadsInto(n, c, dir, free) && Step(n, c, dir) == FirstStep(n, c, dirs, free)
    ensures FirstStep(n, c, dirs, free).None? <==> forall dir :: dir in dirs ==> !LeadsInto(n, c, dir, free)
  {
    if dirs != [] {
      FirstStepDirs(n, c, dirs[1..], free);
      assert dirs == [dirs[0]] + dirs[1..];
    }
  }

  /** After a shuffle of all four directions the cell found is a
      neighbour of c in free, and none is found exactly when c has no
      neighbour in free. */
  lemma FirstStepMeans(n: int, c: Cell, dirs: seq<int>, free: seq<Cell>)
    requires IsShuffle(dirs)
    ensures var r := FirstStep(n, c, dirs, free);
      && (r.Some? ==> r.value in free && Neighbor(n, c, r.value))
      && (r.None? <==> forall d :: d in free ==> !Neighbor(n, c, d))
  {
    FirstStepDirs(n, c, dirs, free);
    var r := FirstStep(n, c, dirs, free);
    if r.Some? {
      var dir :| dir in dirs && LeadsInto(n, c, dir, free) && Step(n, c, dir) == r;
      assert Step(n, c, dir) == Step(n, c, UP) || Step(n, c, dir) == Step(n, c, DOWN)
        || Step(n, c, dir) == Step(n, c, LEFT) || Step(n, c, dir) == Step(n, c, RIGHT);
    } else {
      forall d | d in free ensures !Neighbor(n, c, d) {
        assert !LeadsInto(n, c, UP, free) && !LeadsInto(n, c, DOWN, free);
        assert !LeadsInto(n, c, LEFT, free) && !LeadsInto(n, c, RIGHT, free);
      }
    }
  }

  /**
   * `findNeighbor`'s walk: the cage's cells from the last one back, from
   * the i-th of them on, the directions for the i-th being order(i).
   */
  function Search(n: int, cage: seq<Cell>, free: seq<Cell>, order: nat -> seq<int>, i: nat): Option<Cell>
    requires i <= |cage|
    decreases |cage| - i
  {
    if i == |cage| then None
    else if FirstStep(n, cage[|cage| - 1 - i], order(i), free).Some? then FirstStep(n, cage[|cage| - 1 - i], order(i), free)
    else Search(n, cage, free, order, i + 1)
  }

  /** The walk from the i-th cell from the end finds a free neighbour of
      one of the cells it visits, and finds none exactly when those cells
      have no free neighbour. */
  lemma {:induction false} SearchMeans(n: int, cage: seq<Cell>, free: seq<Cell>, order: nat -> seq<int>, i: nat)
    requires i <= |cage|
    requires forall k :: i <= k < |cage| ==> IsShuffle(order(k))
    ensures var r := Search(n, cage, free, order, i);
      && (r.Some? ==> r.value in free && exists k :: 0 <= k < |cage| - i && Neighbor(n, cage[k], r.value))
      && (r.None? <==> forall k, d :: 0 <= k < |cage| - i && d in free ==> !Neighbor(n, cage[k], d))
    decreases |cage| - i
  {
    if i < |cage| {
      var k0 := |cage| - 1 - i;
      FirstStepMeans(n, cage[k0], order(i), free);
      SearchMeans(n, cage, free, order, i + 1);
    }
  }

  /** The s-th cell of the cage lies beside an earlier one. */
  ghost predicate Attached(n: int, cage: seq<Cell>, s: int)
    requires 0 <= s < |cage|
  {
    exists k :: 0 <= k < s && Neighbor(n, cage[k], cage[s])
  }

  /** Every cell of the cage after the first lies beside an earlier one. */
  ghost predicate Connected(n: int, cage: seq<Cell>) {
    forall s :: 1 <= s < |cage| ==> Attached(n, cage, s)
  }

  /** No cell of the cage has a neighbour in free. */
  ghost predicate Enclosed(n: int, cage: seq<Cell>, free: seq<Cell>) {
    forall k, d :: 0 <= k < |cage| && d in free ==> !Neighbor(n, cage[k], d)
  }

  /** Growing a connected cage into a free neighbour c of one of its
      cells keeps it connected and moves c out of the free cells. */
  lemma GrowKeeps(n: int, cage: seq<Cell>, free: seq<Cell>, c: Cell)
    requires |cage| >= 1 && Connected(n, cage)
    requires c in free && exists k :: 0 <= k < |cage| && Neighbor(n, cage[k], c)
    ensures Connected(n, cage + [c])
    ensures (cage + [c])[1..] == cage[1..] + [c]
    ensures multiset((cage + [c])[1..]) + multiset(RemoveFirst(free, c)) == multiset(cage[1..]) + multiset(free)
    ensures |RemoveFirst(free, c)| == |free| - 1
  {
    RemoveFirstMeans(free, c);
    assert (cage + [c])[1..] == cage[1..] + [c];
    var g := cage + [c];
    forall s | 1 <= s < |g| ensures Attached(n, g, s) {
      if s < |cage| {
        assert Attached(n, cage, s);
        var k :| 0 <= k < s && Neighbor(n, cage[k], cage[s]);
        assert g[k] == cage[k] && g[s] == cage[s];
        assert Neighbor(n, g[k], g[s]);
      } else {
        var k :| 0 <= k < |cage| && Neighbor(n, cage[k], c);
        assert g[k] == cage[k] && g[s] == c;
        assert Neighbor(n, g[k], g[s]);
      }
    }
  }

  // -----------------------------------------------------------------------
  // The board's cells and partitions of them
  // -----------------------------------------------------------------------

  /** The cells (i, j), (i, j + 1), ..., (i, n - 1). */
  function GridRow(n: int, i: int, j: int): seq<Cell>
    decreases n - j
  {
    if j >= n then [] else [(i, j)] + GridRow(n, i, j + 1)
  }

  /** Rows i .. n - 1 of the board, one after the other. */
  function GridRows(n: int, i: int): seq<Cell>
    decreases n - i
  {
    if i >= n then [] else GridRow(n, i, 0) + GridRows(n, i + 1)
  }

  /** `[(i, j) for i in range(N) for j in range(N)]`. */
  function GridList(n: int): seq<Cell> {
    GridRows(n, 0)
  }

  lemma {:induction false} GridRowCount(n: int, i: int, j: int, c: Cell)
    ensures multiset(GridRow(n, i, j))[c] == if c.0 == i && j <= c.1 < n then 1 else 0
    decreases n - j
  {
    if j < n {
      GridRowCount(n, i, j + 1, c);
      assert multiset(GridRow(n, i, j)) == multiset{(i, j)} + multiset(GridRow(n, i, j + 1));
    }
  }

  lemma {:induction false} GridRowsCount(n: int, i: int, c: Cell)
    ensures multiset(GridRows(n, i))[c] == if i <= c.0 < n && 0 <= c.1 < n then 1 else 0
    decreases n - i
  {
    if i < n {
      GridRowCount(n, i, 0, c);
      GridRowsCount(n, i + 1, c);
      var row, rows := GridRow(n, i, 0), GridRows(n, i + 1);
      assert GridRows(n, i) == row + rows;
      var x, y := multiset(row)[c], multiset(rows)[c];
      assert multiset(GridRows(n, i))[c] == x + y;
      assert x + y == if i <= c.0 < n && 0 <= c.1 < n then 1 else 0;
    }
  }

  /** The list of free cells the generator starts from holds every cell of
      the board once and nothing else. */
  lemma GridListCount(n: int, c: Cell)
    ensures multiset(GridList(n))[c] == if 0 <= c.0 < n && 0 <= c.1 < n then 1 else 0
  {
    GridRowsCount(n, 0, c);
  }

  /** The cells of all cages, counted with repeats. */
  function AllCells(cages: seq<seq<Cell>>): multiset<Cell> {
    if cages == [] then multiset{} else multiset(cages[0]) + AllCells(cages[1..])
  }

  /** The cages are non-empty and hold every cell of the board exactly
      once, and nothing else. */
  ghost predicate Partition(cages: seq<seq<Cell>>, n: int) {
    && AllCells(cages) == multiset(GridList(n))
    && forall c :: c in cages ==> c != []
  }

  lemma {:induction false} AllCellsAppend(a: seq<seq<Cell>>, b: seq<seq<Cell>>)
    ensures AllCells(a + b) == AllCells(a) + AllCells(b)
  {
    if a != [] {
      assert (a + b)[1..] == a[1..] + b;
      AllCellsAppend(a[1..], b);
    } else {
      assert a + b == b;
    }
  }

  /** Taking a cage out of the list takes its cells out. */
  lemma {:induction false} AllCellsRemove(s: seq<seq<Cell>>, x: seq<Cell>)
    requires x in s
    ensures AllCells(RemoveFirst(s, x)) + multiset(x) == AllCells(s)
  {
    if s[0] != x {
      assert x in s[1..];
      AllCellsRemove(s[1..], x);
      assert RemoveFirst(s, x)[1..] == RemoveFirst(s[1..], x);
    }
  }

  /** A cage's cells are among all the cells, and two cages never share one. */
  lemma {:induction false} AllCellsHas(s: seq<seq<Cell>>, j: nat, k: nat)
    requires j < |s| && k < |s|
    ensures multiset(s[j]) <= AllCells(s)
    ensures j != k ==> multiset(s[j]) + multiset(s[k]) <= AllCells(s)
  {
    if j > 0 && k > 0 {
      AllCellsHas(s[1..], j - 1, k - 1);
    } else if j > 0 {
      AllCellsHas(s[1..], j - 1, j - 1);
    } else if k > 0 {
      AllCellsHas(s[1..], k - 1, k - 1);
    }
  }

  /** In a partition every cell of the board lies in exactly one cage,
      once, and no cage holds anything else. */
  lemma PartitionMeans(cages: seq<seq<Cell>>, n: int, c: Cell)
    requires Partition(cages, n)
    ensures (0 <= c.0 < n && 0 <= c.1 < n) <==> exists k :: 0 <= k < |cages| && c in cages[k]
    ensures forall j, k :: 0 <= j < k < |cages| ==> !(c in cages[j] && c in cages[k])
    ensures forall k :: 0 <= k < |cages| ==> multiset(cages[k])[c] <= 1
  {
    GridListCount(n, c);
    forall k | 0 <= k < |cages| ensures multiset(cages[k])[c] <= 1 {
      AllCellsHas(cages, k, k);
    }
    forall j, k | 0 <= j < k < |cages| ensures !(c in cages[j] && c in cages[k]) {
      AllCellsHas(cages, j, k);
    }
    if 0 <= c.0 < n && 0 <= c.1 < n {
      AllCellsFind(cages, c);
    } else {
      forall k | 0 <= k < |cages| ensures c !in cages[k] {
        AllCellsHas(cages, k, k);
      }
    }
  }

  /** A cell counted among all the cells lies in some cage. */
  lemma {:induction false} AllCellsFind(s: seq<seq<Cell>>, c: Cell)
    requires c in AllCells(s)
    ensures exists k :: 0 <= k < |s| && c in s[k]
  {
    if c !in s[0] {
      AllCellsFind(s[1..], c);
      var k :| 0 <= k < |s[1..]| && c in s[1..][k];
      assert c in s[k + 1];
    }
  }

  // -----------------------------------------------------------------------
  // smallestNeighborCage
  // -----------------------------------------------------------------------

  /** No cage of this length or more is taken as a neighbour: the length
      of the source's sentinel `[0, 0, 0, 0, 0, 0, 0, 0, 0]`. */
  const NEIGHBOR_LIMIT := 9

  /** The cage holds one of the four cells beside node (board edges are
      not checked). */
  predicate Touches(node: Cell, cage: seq<Cell>) {
    || (node.0, node.1 + 1) in cage || (node.0, node.1 - 1) in cage
    || (node.0 - 1, node.1) in cage || (node.0 + 1, node.1) in cage
  }

  /** A cage `smallestNeighborCage(node)` considers. */
  predicate Candidate(node: Cell, cage: seq<Cell>) {
    cage != [node] && Touches(node, cage)
  }

  /** The length a cage must stay under to replace the best so far. */
  function Bound(best: Option<seq<Cell>>): int {
    if best.None? then NEIGHBOR_LIMIT else |best.value|
  }

  /** The best neighbour among the first k cages, None standing for the
      sentinel. */
  function SmallestUpTo(cages: seq<seq<Cell>>, node: Cell, k: nat): Option<seq<Cell>>
    requires k <= |cages|
  {
    if k == 0 then None
    else
      var best := SmallestUpTo(cages, node, k - 1);
      if Candidate(node, cages[k - 1]) && |cages[k - 1]| < Bound(best) then Some(cages[k - 1]) else best
  }

  /** `smallestNeighborCage(node)` on the cage list. */
  function SmallestNeighbor(cages: seq<seq<Cell>>, node: Cell): Option<seq<Cell>> {
    SmallestUpTo(cages, node, |cages|)
  }

  /** Among the first k cages: none is found exactly when no candidate is
      shorter than the sentinel, and otherwise the one found is the first
      candidate of the least length. */
  lemma {:induction false} SmallestUpToMeans(cages: seq<seq<Cell>>, node: Cell, k: nat)
    requires k <= |cages|
    ensures var r := SmallestUpTo(cages, node, k);
      && (r.None? <==> forall j :: 0 <= j < k && Candidate(node, cages[j]) ==> |cages[j]| >= NEIGHBOR_LIMIT)
      && (r.Some? ==> exists j :: (0 <= j < k && cages[j] == r.value && Candidate(node, r.value)
            && |r.value| < NEIGHBOR_LIMIT
            && (forall i :: 0 <= i < j && Candidate(node, cages[i]) ==> |cages[i]| > |r.value|)
            && (forall i :: 0 <= i < k && Candidate(node, cages[i]) ==> |r.value| <= |cages[i]|)))
  {
    if k > 0 {
      SmallestUpToMeans(cages, node, k - 1);
    }
  }

  // -----------------------------------------------------------------------
  // mergeCages, consolidateOneSingle, consolidateCageList
  // -----------------------------------------------------------------------

  /**
   * `mergeCages(a, b)` on the cage list: a goes, then b, and their sorted
   * concatenation is appended. A `remove` of a cage that is not there
   * raises ValueError (false), after the removals already made.
   */
  function Merge(cages: seq<seq<Cell>>, a: seq<Cell>, b: seq<Cell>): (bool, seq<seq<Cell>>) {
    if a !in cages then (false, cages)
    else if b !in RemoveFirst(cages, a) then (false, RemoveFirst(cages, a))
    else
      CellLessOrder();
      (true, RemoveFirst(RemoveFirst(cages, a), b) + [Sort(a + b, CellLess)])
  }

  /** Merging two different cages of a partition succeeds and leaves a
      partition with one cage fewer. */
  lemma MergeKeepsPartition(cages: seq<seq<Cell>>, n: int, a: seq<Cell>, b: seq<Cell>)
    requires Partition(cages, n) && a in cages && b in cages && a != b
    ensures Merge(cages, a, b).0
    ensures Partition(Merge(cages, a, b).1, n)
    ensures |Merge(cages, a, b).1| == |cages| - 1
  {
    RemoveFirstKeepsOthers(cages, a, b);
    MergeShrinks(cages, a, b);
    MergeCells(cages, a, b);
    MergeNonEmpty(cages, a, b);
  }

  /** A merge that goes through keeps every cell. */
  lemma MergeCells(cages: seq<seq<Cell>>, a: seq<Cell>, b: seq<Cell>)
    requires a in cages && b in RemoveFirst(cages, a)
    ensures AllCells(Merge(cages, a, b).1) == AllCells(cages)
  {
    CellLessOrder();
    var rest := RemoveFirst(cages, a);
    AllCellsRemove(cages, a);
    AllCellsRemove(rest, b);
    var merged := Sort(a + b, CellLess);
    AllCellsAppend(RemoveFirst(rest, b), [merged]);
    assert AllCells([merged]) == multiset(merged);
  }

  /** A merge of non-empty cages leaves only non-empty cages. */
  lemma MergeNonEmpty(cages: seq<seq<Cell>>, a: seq<Cell>, b: seq<Cell>)
    requires forall c :: c in cages ==> c != []
    ensures forall c :: c in Merge(cages, a, b).1 ==> c != []
  {
    CellLessOrder();
    var rest := RemoveFirst(cages, a);
    RemoveFirstSubset(cages, a);
    RemoveFirstSubset(rest, b);
    if a in cages && b in rest {
      var merged := Sort(a + b, CellLess);
      assert a != [];
      assert a[0] in multiset(merged);
    }
  }

  /** `cageListInit`'s loop invariant: the cages built so far and the
      free cells together are the board's cells, and no cage is empty. */
  ghost predicate Covers(cages: seq<seq<Cell>>, free: seq<Cell>, board: multiset<Cell>) {
    && AllCells(cages) + multiset(free) == board
    && forall c :: c in cages ==> c != []
  }

  /** Popping the root at p and growing it into cage moves the cells
      taken from the free list into the cage list. */
  lemma AddCageKeeps(cages: seq<seq<Cell>>, free: seq<Cell>, board: multiset<Cell>, p: nat, cage: seq<Cell>, rest: seq<Cell>)
    requires Covers(cages, free, board)
    requires p < |free| && |cage| >= 1 && cage[0] == free[p]
    requires multiset(cage[1..]) + multiset(rest) == multiset(free[..p] + free[p + 1..])
    ensures Covers(cages + [cage], rest, board)
  {
    PopCells(free, p);
    AllCellsSnoc(cages, cage);
    assert multiset(cage) == multiset{cage[0]} + multiset(cage[1..]) by {
      assert cage == [cage[0]] + cage[1..];
    }
  }

  /** Popping the element at p from a list. */
  lemma PopCells(free: seq<Cell>, p: nat)
    requires p < |free|
    ensures multiset(free) == multiset(free[..p] + free[p + 1..]) + multiset{free[p]}
  {
    assert free == free[..p] + [free[p]] + free[p + 1..];
  }

  /** Appending a cage adds its cells. */
  lemma AllCellsSnoc(cages: seq<seq<Cell>>, cage: seq<Cell>)
    ensures AllCells(cages + [cage]) == AllCells(cages) + multiset(cage)
  {
    AllCellsAppend(cages, [cage]);
    assert AllCells([cage]) == multiset(cage);
  }

  /** The number of one-cell cages (`numberOfSingles`). */
  function NumberOfSingles(cages: seq<seq<Cell>>): nat {
    if cages == [] then 0 else (if |cages[0]| == 1 then 1 else 0) + NumberOfSingles(cages[1..])
  }

  /** The index of the first one-cell cage, or |cages| when there is none. */
  function FirstSingle(cages: seq<seq<Cell>>): (k: nat)
    ensures k <= |cages|
    ensures k < |cages| ==> |cages[k]| == 1
    ensures forall j :: 0 <= j < k ==> |cages[j]| != 1
    ensures k == |cages| <==> NumberOfSingles(cages) == 0
  {
    if cages == [] then 0
    else if |cages[0]| == 1 then 0
    else 1 + FirstSingle(cages[1..])
  }

  /** The first one-cell cage is the one before which there is none. */
  lemma FirstSingleIs(cages: seq<seq<Cell>>, k: nat)
    requires k <= |cages| && (k < |cages| ==> |cages[k]| == 1)
    requires forall j :: 0 <= j < k ==> |cages[j]| != 1
    ensures k == FirstSingle(cages)
  {
  }

  /** The cage `consolidateOneSingle`'s loop stops at: the first one-cell
      cage, or the last cage when there is none. */
  function PickedCage(cages: seq<seq<Cell>>): seq<Cell>
    requires cages != []
  {
    if FirstSingle(cages) < |cages| then cages[FirstSingle(cages)] else cages[|cages| - 1]
  }

  /**
   * `consolidateOneSingle` on the cage list. With no cage to pick (a
   * NameError) or an empty one (an IndexError) nothing changes; when the
   * search returns the sentinel, the picked cage is removed and the
   * removal of the sentinel raises ValueError.
   */
  function OneSingle(cages: seq<seq<Cell>>): (bool, seq<seq<Cell>>) {
    if cages == [] then (false, cages)
    else
      var cage := PickedCage(cages);
      if cage == [] then (false, cages)
      else
        var nb := SmallestNeighbor(cages, cage[0]);
        if nb.None? then (false, RemoveFirst(cages, cage))
        else Merge(cages, cage, nb.value)
  }

  /** A merge that goes through leaves one cage fewer. */
  lemma MergeShrinks(cages: seq<seq<Cell>>, a: seq<Cell>, b: seq<Cell>)
    ensures Merge(cages, a, b).0 ==> |Merge(cages, a, b).1| == |cages| - 1
  {
    RemoveFirstMeans(cages, a);
    RemoveFirstMeans(RemoveFirst(cages, a), b);
  }

  /** A round that goes through leaves one cage fewer. */
  lemma OneSingleShrinks(cages: seq<seq<Cell>>)
    ensures OneSingle(cages).0 ==> |OneSingle(cages).1| == |cages| - 1
  {
    if cages != [] && PickedCage(cages) != [] {
      var nb := SmallestNeighbor(cages, PickedCage(cages)[0]);
      if nb.Some? {
        MergeShrinks(cages, PickedCage(cages), nb.value);
      }
    }
  }

  /** Ways `consolidateCageList` can end short of its goal: a one-cell
      cage [node] was taken out and no other cage shorter than the
      sentinel lies beside node. */
  ghost predicate Stuck(cages: seq<seq<Cell>>, n: int) {
    exists node :: Partition(cages + [[node]], n) &&
      forall c :: c in cages && Candidate(node, c) ==> |c| >= NEIGHBOR_LIMIT
  }

  /** On a partition, a one-cell cage with a neighbouring cage shorter
      than the sentinel is merged into it, leaving a partition. */
  lemma OneSingleMerges(cages: seq<seq<Cell>>, n: int)
    requires Partition(cages, n) && NumberOfSingles(cages) > 0
    requires SmallestNeighbor(cages, cages[FirstSingle(cages)][0]).Some?
    ensures OneSingle(cages).0 && Partition(OneSingle(cages).1, n)
  {
    var cage := cages[FirstSingle(cages)];
    var node := cage[0];
    assert cage == [node];
    var nb := SmallestNeighbor(cages, node);
    SmallestUpToMeans(cages, node, |cages|);
    var j :| 0 <= j < |cages| && cages[j] == nb.value && Candidate(node, nb.value);
    MergeKeepsPartition(cages, n, cage, nb.value);
  }

  /** On a partition, a one-cell cage with no neighbouring cage shorter
      than the sentinel is dropped and the round fails in the stuck
      state. */
  lemma OneSingleSticks(cages: seq<seq<Cell>>, n: int)
    requires Partition(cages, n) && NumberOfSingles(cages) > 0
    requires SmallestNeighbor(cages, cages[FirstSingle(cages)][0]).None?
    ensures !OneSingle(cages).0 && Stuck(OneSingle(cages).1, n)
  {
    var cage := cages[FirstSingle(cages)];
    var node := cage[0];
    assert cage == [node];
    SmallestUpToMeans(cages, node, |cages|);
    var r := RemoveFirst(cages, cage);
    assert OneSingle(cages).1 == r;
    DropKeepsCells(cages, node);
    RemoveFirstSubset(cages, cage);
    forall c | c in r && Candidate(node, c) ensures |c| >= NEIGHBOR_LIMIT {
      var k :| 0 <= k < |cages| && cages[k] == c;
    }
  }

  /** Moving the one-cell cage [node] from its place to the end keeps a
      partition. */
  lemma DropKeepsCells(cages: seq<seq<Cell>>, node: Cell)
    requires [node] in cages
    ensures AllCells(RemoveFirst(cages, [node]) + [[node]]) == AllCells(cages)
    ensures (forall c :: c in cages ==> c != []) ==> forall c :: c in RemoveFirst(cages, [node]) + [[node]] ==> c != []
  {
    var r := RemoveFirst(cages, [node]);
    AllCellsRemove(cages, [node]);
    AllCellsAppend(r, [[node]]);
    assert AllCells([[node]]) == multiset([node]);
    RemoveFirstSubset(cages, [node]);
  }

  /** On a partition with a one-cell cage, a round succeeds exactly when
      that cage has a neighbouring cage shorter than the sentinel; it
      leaves a partition, or the stuck state when it fails. */
  lemma OneSingleMeans(cages: seq<seq<Cell>>, n: int)
    requires Partition(cages, n) && NumberOfSingles(cages) > 0
    ensures OneSingle(cages).0 <==> SmallestNeighbor(cages, cages[FirstSingle(cages)][0]).Some?
    ensures OneSingle(cages).0 ==> Partition(OneSingle(cages).1, n)
    ensures !OneSingle(cages).0 ==> Stuck(OneSingle(cages).1, n)
  {
    if SmallestNeighbor(cages, cages[FirstSingle(cages)][0]).Some? {
      OneSingleMerges(cages, n);
    } else {
      OneSingleSticks(cages, n);
    }
  }

  /** `consolidateCageList(M)` on the cage list: rounds of
      `consolidateOneSingle` while more than M one-cell cages remain. */
  function Consolidated(cages: seq<seq<Cell>>, m: int): (bool, seq<seq<Cell>>)
    decreases |cages|
  {
    if NumberOfSingles(cages) <= m then (true, cages)
    else
      OneSingleShrinks(cages);
      var (ok, r) := OneSingle(cages);
      if !ok then (false, r) else Consolidated(r, m)
  }

  /** Consolidation that ends normally leaves at most m one-cell cages;
      from a partition it leaves a partition, or the stuck state. */
  lemma {:induction false} ConsolidatedMeans(cages: seq<seq<Cell>>, m: int, n: int)
    ensures Consolidated(cages, m).0 ==> NumberOfSingles(Consolidated(cages, m).1) <= m
    ensures 0 <= m && Partition(cages, n) ==>
      && (Consolidated(cages, m).0 ==> Partition(Consolidated(cages, m).1, n))
      && (!Consolidated(cages, m).0 ==> Stuck(Consolidated(cages, m).1, n))
    decreases |cages|
  {
    if NumberOfSingles(cages) > m {
      OneSingleShrinks(cages);
      var (ok, r) := OneSingle(cages);
      if 0 <= m && Partition(cages, n) {
        OneSingleMeans(cages, n);
      }
      if ok {
        ConsolidatedMeans(r, m, n);
      }
    }
  }

  // -----------------------------------------------------------------------
  // The generator object
  // -----------------------------------------------------------------------

  /** `consolidateCageList`'s default M: one-cell cages left unmerged. */
  const SINGLES_KEPT := 4

  class KenKenCage {
    const kenkenSize: int
    var cageList: seq<seq<Cell>>

    /**
     * A random cage partition of the n x n board. pick(k, m) is the
     * `randrange(m)` drawn for the root of cage k, goal(k) that cage's
     * `desiredLength()`, and order(k, t, i) the shuffle of directions
     * for its t-th growth step at its i-th cell from the end.
     */
    constructor (n: int, pick: (nat, nat) -> nat, goal: nat -> int, order: (nat, nat, nat) -> seq<int>)
      requires forall k, m :: 0 < m ==> pick(k, m) < m
      requires forall k, t, i :: IsShuffle(order(k, t, i))
      ensures kenkenSize == n
      ensures (Partition(cageList, n) && NumberOfSingles(cageList) <= SINGLES_KEPT) || Stuck(cageList, n)
    {
      kenkenSize := n;
      cageList := [];
      new;
      var ok := CageListInit(pick, goal, order);
    }

    /**
     * `cageListInit`: roots are popped from the free cells and grown
     * into cages until no cell is free, then the list is consolidated.
     * It ends with a partition of the board with at most four one-cell
     * cages, or in the stuck state when the consolidation raises.
     */
    method CageListInit(pick: (nat, nat) -> nat, goal: nat -> int, order: (nat, nat, nat) -> seq<int>) returns (ok: bool)
      requires forall k, m :: 0 < m ==> pick(k, m) < m
      requires forall k, t, i :: IsShuffle(order(k, t, i))
      modifies this`cageList
      ensures ok ==> Partition(cageList, kenkenSize) && NumberOfSingles(cageList) <= SINGLES_KEPT
      ensures !ok ==> Stuck(cageList, kenkenSize)
    {
      var n := kenkenSize;
      cageList := [];
      var indexSet := GridList(n);
      var k: nat := 0;
      while indexSet != []
        invariant Covers(cageList, indexSet, multiset(GridList(n)))
        decreases |indexSet|
      {
        var p := pick(k, |indexSet|);
        var rootIndex := indexSet[p];
        ghost var before := indexSet;
        indexSet := indexSet[..p] + indexSet[p + 1..];
        var cage;
        cage, indexSet := GrowCage(rootIndex, indexSet, goal(k), (t: nat, i: nat) => order(k, t, i));
        AddCageKeeps(cageList, before, multiset(GridList(n)), p, cage, indexSet);
        cageList := cageList + [cage];
        k := k + 1;
      }
      assert Partition(cageList, n);
      ok := ConsolidateCageList(SINGLES_KEPT);
    }

    /**
     * `growCage`: starting from rootIndex, free neighbours are appended
     * (and taken out of the free cells) until the cage has goalLength
     * cells or cannot grow. Every cell after the first lies beside an
     * earlier one, and a cage left short has no free neighbour.
     */
    method GrowCage(rootIndex: Cell, indexSet: seq<Cell>, goalLength: int, order: (nat, nat) -> seq<int>)
      returns (cage: seq<Cell>, rest: seq<Cell>)
      requires forall t, i :: IsShuffle(order(t, i))
      ensures |cage| >= 1 && cage[0] == rootIndex
      ensures |cage| <= goalLength || |cage| == 1
      ensures multiset(cage[1..]) + multiset(rest) == multiset(indexSet)
      ensures |rest| == |indexSet| - (|cage| - 1)
      ensures Connected(kenkenSize, cage)
      ensures |cage| < goalLength ==> Enclosed(kenkenSize, cage, rest)
    {
      cage := [rootIndex];
      rest := indexSet;
      var canGrow := true;
      var t: nat := 0;
      while canGrow && |cage| < goalLength
        invariant |cage| >= 1 && cage[0] == rootIndex
        invariant |cage| <= goalLength || |cage| == 1
        invariant multiset(cage[1..]) + multiset(rest) == multiset(indexSet)
        invariant |rest| == |indexSet| - (|cage| - 1)
        invariant Connected(kenkenSize, cage)
        invariant !canGrow ==> Enclosed(kenkenSize, cage, rest)
        decreases goalLength - |cage|, if canGrow then 1 else 0
      {
        var neighbor := FindNeighbor(cage, rest, (i: nat) => order(t, i));
        if neighbor.None? {
          // findNeighbor raised ValueError
          canGrow := false;
        } else {
          var c := neighbor.value;
          GrowKeeps(kenkenSize, cage, rest, c);
          rest := RemoveFirst(rest, c);
          cage := cage + [c];
        }
        t := t + 1;
      }
    }

    /**
     * `findNeighbor`: the cage's cells are tried from the last one back,
     * each in its own shuffled order of directions; the first step that
     * stays on the board and lands on a free cell gives the result, and
     * None stands for the ValueError raised when there is none.
     */
    method FindNeighbor(cage: seq<Cell>, indexSet: seq<Cell>, order: nat -> seq<int>) returns (r: Option<Cell>)
      requires forall i :: 0 <= i < |cage| ==> IsShuffle(order(i))
      ensures r == Search(kenkenSize, cage, indexSet, order, 0)
      ensures r.Some? ==> r.value in indexSet && exists k :: 0 <= k < |cage| && Neighbor(kenkenSize, cage[k], r.value)
      ensures r.None? <==> Enclosed(kenkenSize, cage, indexSet)
    {
      var n := kenkenSize;
      SearchMeans(n, cage, indexSet, order, 0);
      var i := 0;
      while i < |cage|
        invariant 0 <= i <= |cage|
        invariant Search(n, cage, indexSet, order, i) == Search(n, cage, indexSet, order, 0)
      {
        var growIndex := cage[|cage| - 1 - i];
        r := TryDirections(growIndex, order(i), indexSet);
        if r.Some? {
          return;
        }
        i := i + 1;
      }
      r := None;
    }

    /** The `for dir in directionList` pass of `findNeighbor` from
        growIndex. Its `neighborIndex` keeps the last step that stayed on
        the board, so a direction blocked by the edge repeats the test of
        the previous one; the result is still the first direction that
        leads to a free cell. */
    method TryDirections(growIndex: Cell, directionList: seq<int>, indexSet: seq<Cell>) returns (r: Option<Cell>)
      ensures r == FirstStep(kenkenSize, growIndex, directionList, indexSet)
    {
      var n := kenkenSize;
      var a, b := growIndex.0, growIndex.1;
      var neighborIndex := NO_CELL;
      var q := 0;
      while q < |directionList|
        invariant 0 <= q <= |directionList|
        invariant FirstStep(n, growIndex, directionList[q..], indexSet) == FirstStep(n, growIndex, directionList, indexSet)
        invariant neighborIndex == NO_CELL || neighborIndex !in indexSet
      {
        var dir := directionList[q];
        assert directionList[q..][1..] == directionList[q + 1..];
        if dir == UP {
          if b != n - 1 { neighborIndex := (a, b + 1); }
        } else if dir == DOWN {
          if b != 0 { neighborIndex := (a, b - 1); }
        } else if dir == LEFT {
          if a != 0 { neighborIndex := (a - 1, b); }
        } else {
          if a != n - 1 { neighborIndex := (a + 1, b); }
        }
        if neighborIndex != NO_CELL && neighborIndex in indexSet {
          return Some(neighborIndex);
        }
        q := q + 1;
      }
      return None;
    }

    /**
     * `smallestNeighborCage(node)`: the first of the shortest cages other
     * than [node] that hold a cell beside node, None standing for the
     * length-9 sentinel returned when no such cage is shorter than 9.
     */
    method SmallestNeighborCage(node: Cell) returns (neighborCage: Option<seq<Cell>>)
      ensures neighborCage == SmallestNeighbor(cageList, node)
      ensures neighborCage.None? <==> forall c :: c in cageList && Candidate(node, c) ==> |c| >= NEIGHBOR_LIMIT
      ensures neighborCage.Some? ==> (neighborCage.value in cageList && Candidate(node, neighborCage.value)
        && |neighborCage.value| < NEIGHBOR_LIMIT
        && forall c :: c in cageList && Candidate(node, c) ==> |neighborCage.value| <= |c|)
    {
      neighborCage := None;
      var k := 0;
      while k < |cageList|
        invariant 0 <= k <= |cageList|
        invariant neighborCage == SmallestUpTo(cageList, node, k)
      {
        var cage := cageList[k];
        if cage != [node] {
          if Touches(node, cage) {
            if |cage| < Bound(neighborCage) {
              neighborCage := Some(cage);
            }
          }
        }
        k := k + 1;
      }
      SmallestUpToMeans(cageList, node, |cageList|);
    }

    /** `mergeCages(cage, neighborCage)`. */
    method MergeCages(cage: seq<Cell>, neighborCage: seq<Cell>) returns (ok: bool)
      modifies this`cageList
      ensures (ok, cageList) == Merge(old(cageList), cage, neighborCage)
    {
      CellLessOrder();
      var newCage := Sort(cage + neighborCage, CellLess);
      if cage !in cageList {
        return false;
      }
      cageList := RemoveFirst(cageList, cage);
      if neighborCage !in cageList {
        return false;
      }
      cageList := RemoveFirst(cageList, neighborCage);
      cageList := cageList + [newCage];
      ok := true;
    }

    /** `consolidateOneSingle`: the first one-cell cage is merged into
        its smallest neighbouring cage. */
    method ConsolidateOneSingle() returns (ok: bool)
      modifies this`cageList
      ensures (ok, cageList) == OneSingle(old(cageList))
    {
      if cageList == [] {
        // `cage` is never bound: NameError
        return false;
      }
      var k := 0;
      while k < |cageList| && |cageList[k]| != 1
        invariant 0 <= k <= |cageList|
        invariant forall j :: 0 <= j < k ==> |cageList[j]| != 1
      {
        k := k + 1;
      }
      FirstSingleIs(cageList, k);
      var cage := if k < |cageList| then cageList[k] else cageList[|cageList| - 1];
      assert cage == PickedCage(cageList);
      if cage == [] {
        // `cage[0]` raises IndexError
        return false;
      }
      var node := cage[0];
      var neighborCage := SmallestNeighborCage(node);
      if neighborCage.None? {
        // the sentinel is not in the list: the second `remove` raises
        cageList := RemoveFirst(cageList, cage);
        return false;
      }
      ok := MergeCages(cage, neighborCage.value);
    }

    /** `consolidateCageList(M)`: one-cell cages are merged away while
        more than M remain. */
    method ConsolidateCageList(m: int) returns (ok: bool)
      modifies this`cageList
      ensures (ok, cageList) == Consolidated(old(cageList), m)
      ensures ok ==> NumberOfSingles(cageList) <= m
      ensures 0 <= m && Partition(old(cageList), kenkenSize) ==>
        (ok ==> Partition(cageList, kenkenSize)) && (!ok ==> Stuck(cageList, kenkenSize))
    {
      ConsolidatedMeans(cageList, m, kenkenSize);
      ok := true;
      while NumberOfSingles(cageList) > m
        invariant Consolidated(cageList, m) == Consolidated(old(cageList), m)
        decreases |cageList|
      {
        ghost var before := cageList;
        OneSingleShrinks(cageList);
        ok := ConsolidateOneSingle();
        assert Consolidated(before, m) == if ok then Consolidated(cageList, m) else (false, cageList);
        if !ok {
          return;
        }
      }
    }
  }
}
