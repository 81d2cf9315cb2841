// necessaryRuleValues, first half: the table `masterDic` that maps a
// value, an axis and a set of line coordinates to the unsolved cages
// that must place the value on exactly those lines.

module Necessary {
  import opened Lists
  import opened Itertools
  import opened KenKenClass
  import opened SolverSpec

  // -----------------------------------------------------------------------
  // What a cage contributes
  // -----------------------------------------------------------------------

  /** The coordinate a line of the axis is named by: axis 0 keeps the
      second coordinate of a cell (the lines of `reduceRow`), axis 1 the
      first (the lines of `reduceColumn`). */
  function AxisCoord(c: Cell, axis: int): int {
    if axis == 0 then c.1 else c.0
  }

  /** Cell k of line `coord` of the axis: (k, coord) for axis 0 and
      (coord, k) for axis 1. */
  function LineCell(axis: int, coord: int, k: int): Cell {
    if axis == 0 then (k, coord) else (coord, k)
  }

  /** The check `goOn`: some cell of the cage has other than one candidate. */
  ghost predicate Unsolved(poss: Poss, K: seq<Cell>) {
    exists j :: 0 <= j < |K| && K[j] in poss && |poss[K[j]]| != 1
  }

  /** Every assignment of the cage puts v in one of its cells (and there
      is at least one assignment). */
  ghost predicate Necessary(S: seq<seq<int>>, v: int) {
    S != [] && forall t :: t in S ==> v in t
  }

  /** Some assignment of the cage leaves v out. */
  ghost predicate Missing(S: seq<seq<int>>, v: int) {
    exists t :: t in S && v !in t
  }

  /** The coordinates along the axis of the cells of K among the first j
      positions of tuple t that t fills with v. */
  function TupleCoords(K: seq<Cell>, t: seq<int>, v: int, axis: int, j: nat): set<int>
    requires j <= |t|
  {
    if j == 0 then {}
    else TupleCoords(K, t, v, axis, j - 1) + (if t[j - 1] == v && j - 1 < |K| then {AxisCoord(K[j - 1], axis)} else {})
  }

  /** The same over the first i tuples of S. */
  function CoordsUpTo(K: seq<Cell>, S: seq<seq<int>>, v: int, axis: int, i: nat): set<int>
    requires i <= |S|
  {
    if i == 0 then {} else CoordsUpTo(K, S, v, axis, i - 1) + TupleCoords(K, S[i - 1], v, axis, |S[i - 1]|)
  }

  /** The lines of the axis on which some assignment of cage K puts v:
      `rowDic[v]` (axis 0) and `columnDic[v]` (axis 1) without `None`. */
  function Coords(K: seq<Cell>, S: seq<seq<int>>, v: int, axis: int): set<int> {
    CoordsUpTo(K, S, v, axis, |S|)
  }

  lemma {:induction false} TupleCoordsMeans(K: seq<Cell>, t: seq<int>, v: int, axis: int, j: nat, y: int)
    requires j <= |t|
    ensures y in TupleCoords(K, t, v, axis, j) <==>
      exists p :: 0 <= p < j && p < |K| && t[p] == v && AxisCoord(K[p], axis) == y
  {
    if j > 0 {
      TupleCoordsMeans(K, t, v, axis, j - 1, y);
    }
  }

  lemma {:induction false} CoordsUpToMeans(K: seq<Cell>, S: seq<seq<int>>, v: int, axis: int, i: nat, y: int)
    requires i <= |S|
    ensures y in CoordsUpTo(K, S, v, axis, i) <==>
      exists q, p :: 0 <= q < i && 0 <= p < |S[q]| && p < |K| && S[q][p] == v && AxisCoord(K[p], axis) == y
  {
    if i > 0 {
      CoordsUpToMeans(K, S, v, axis, i - 1, y);
      TupleCoordsMeans(K, S[i - 1], v, axis, |S[i - 1]|, y);
    }
  }

  /** Line y is in the cage's coordinate set for v exactly when some
      assignment puts v in a cell of the cage on that line. */
  lemma CoordsMeans(K: seq<Cell>, S: seq<seq<int>>, v: int, axis: int, y: int)
    ensures y in Coords(K, S, v, axis) <==>
      exists t, p :: t in S && 0 <= p < |t| && p < |K| && t[p] == v && AxisCoord(K[p], axis) == y
  {
    CoordsUpToMeans(K, S, v, axis, |S|, y);
    if y in Coords(K, S, v, axis) {
      var q, p :| 0 <= q < |S| && 0 <= p < |S[q]| && p < |K| && S[q][p] == v && AxisCoord(K[p], axis) == y;
      assert S[q] in S;
    }
  }

  /** Value v is seen in one of the first i tuples. */
  ghost predicate SeenBefore(S: seq<seq<int>>, v: int, i: nat) {
    exists q :: 0 <= q < i && q < |S| && v in S[q]
  }

  /** A value not yet seen has no coordinates yet. */
  lemma {:induction false} CoordsUnseen(K: seq<Cell>, S: seq<seq<int>>, v: int, axis: int, i: nat)
    requires i <= |S| && !SeenBefore(S, v, i)
    ensures CoordsUpTo(K, S, v, axis, i) == {}
  {
    if i > 0 {
      assert !SeenBefore(S, v, i - 1) by {
        forall q | 0 <= q < i - 1 && q < |S| ensures v !in S[q] {
          assert 0 <= q < i;
        }
      }
      CoordsUnseen(K, S, v, axis, i - 1);
      assert v !in S[i - 1];
      TupleCoordsUnseen(K, S[i - 1], v, axis, |S[i - 1]|);
    }
  }

  lemma {:induction false} TupleCoordsUnseen(K: seq<Cell>, t: seq<int>, v: int, axis: int, j: nat)
    requires j <= |t| && v !in t[..j]
    ensures TupleCoords(K, t, v, axis, j) == {}
  {
    if j > 0 {
      assert t[..j - 1] == t[..j][..j - 1];
      assert t[j - 1] == t[..j][j - 1];
      TupleCoordsUnseen(K, t, v, axis, j - 1);
    }
  }

  /** The entry (v, axis, cs) of `masterDic` that cage K with
      assignments S makes: v is in every assignment and cs is the set of
      lines of the axis that v can take in the cage. */
  ghost predicate CageEntry(K: seq<Cell>, S: seq<seq<int>>, v: int, axis: int, cs: set<int>) {
    (axis == 0 || axis == 1) && Necessary(S, v) && cs == Coords(K, S, v, axis)
  }

  // -----------------------------------------------------------------------
  // The table
  // -----------------------------------------------------------------------

  /** `masterDic`, flattened: (value, axis, coordinate set) to cages. */
  type Master = map<(int, int, set<int>), set<seq<Cell>>>

  /** The table lists exactly the entries of the unsolved cages among
      `done`, and no key with an empty cage list. */
  ghost predicate DescribesOver(m: Master, st: St, done: set<seq<Cell>>) {
    && (forall e, K :: K in Entry(m, e) <==>
         K in done && K in st.solve && Unsolved(st.poss, K) && CageEntry(K, st.solve[K], e.0, e.1, e.2))
    && NonEmpty(m)
  }

  /** `masterDic` for the state st: every unsolved cage of the
      assignment table is considered. */
  ghost predicate Describes(m: Master, st: St) {
    DescribesOver(m, st, st.solve.Keys)
  }

  /** One instance of the table's description. */
  lemma DescribesAt(m: Master, st: St, done: set<seq<Cell>>, e: (int, int, set<int>), K: seq<Cell>)
    requires DescribesOver(m, st, done)
    ensures K in Entry(m, e) <==>
      K in done && K in st.solve && Unsolved(st.poss, K) && CageEntry(K, st.solve[K], e.0, e.1, e.2)
  {
  }

  /** The table is determined by the state. */
  lemma DescribesUnique(m1: Master, m2: Master, st: St)
    requires Describes(m1, st) && Describes(m2, st)
    ensures m1 == m2
  {
    forall e | e in m1 ensures e in m2 && m1[e] == m2[e] {
      var K :| K in m1[e];
      DescribesAt(m1, st, st.solve.Keys, e, K);
      DescribesAt(m2, st, st.solve.Keys, e, K);
      forall K' ensures K' in m1[e] <==> K' in m2[e] {
        DescribesAt(m1, st, st.solve.Keys, e, K');
        DescribesAt(m2, st, st.solve.Keys, e, K');
      }
    }
    forall e | e in m2 ensures e in m1 {
      var K :| K in m2[e];
      DescribesAt(m1, st, st.solve.Keys, e, K);
      DescribesAt(m2, st, st.solve.Keys, e, K);
    }
  }

  /** A cage sits under one coordinate set per value and axis, so the
      cage lists of different keys never share a cage: the length of the
      source's concatenated `ruleList` is the number of distinct cages. */
  lemma OneKeyPerCage(m: Master, st: St, v: int, axis: int, cs1: set<int>, cs2: set<int>, K: seq<Cell>)
    requires Describes(m, st)
    requires (v, axis, cs1) in m && (v, axis, cs2) in m
    requires K in m[(v, axis, cs1)] && K in m[(v, axis, cs2)]
    ensures cs1 == cs2
  {
    DescribesAt(m, st, st.solve.Keys, (v, axis, cs1), K);
    DescribesAt(m, st, st.solve.Keys, (v, axis, cs2), K);
  }

  /** The keys of `masterDic` for state st. */
  ghost function EntryKeys(st: St): set<(int, int, set<int>)> {
    set K, v, axis | K in st.solve && st.solve[K] != [] && v in st.solve[K][0] && 0 <= axis < 2
      && Unsolved(st.poss, K) && Necessary(st.solve[K], v) :: (v, axis, Coords(K, st.solve[K], v, axis))
  }

  /** `masterDic` for state st, as a value. */
  ghost function MasterOf(st: St): Master {
    map e | e in EntryKeys(st) :: set K | K in st.solve && Unsolved(st.poss, K) && CageEntry(K, st.solve[K], e.0, e.1, e.2)
  }

  /** `MasterOf` is the table the state describes. */
  lemma MasterOfDescribes(st: St)
    ensures Describes(MasterOf(st), st)
  {
    var m := MasterOf(st);
    forall e, K ensures e in m && K in m[e] <==>
      K in st.solve && Unsolved(st.poss, K) && CageEntry(K, st.solve[K], e.0, e.1, e.2)
    {
      if K in st.solve && Unsolved(st.poss, K) && CageEntry(K, st.solve[K], e.0, e.1, e.2) {
        assert st.solve[K][0] in st.solve[K];
        assert e in EntryKeys(st);
      }
    }
    forall e | e in m ensures m[e] != {} {
      var K, v, axis :| K in st.solve && st.solve[K] != [] && v in st.solve[K][0] && 0 <= axis < 2
        && Unsolved(st.poss, K) && Necessary(st.solve[K], v) && e == (v, axis, Coords(K, st.solve[K], v, axis));
      assert K in m[e];
    }
  }

  // -----------------------------------------------------------------------
  // Building the table, loop by loop
  // -----------------------------------------------------------------------

  /** A value's coordinate list in `rowDic` / `columnDic`: coordinates,
      and `None` once the value is known not to be in every assignment. */
  type CoordList = set<Option<int>>

  /** The coordinates of such a list, without `None`. */
  function CoordSet(s: CoordList): set<int> {
    set o | o in s && o.Some? :: o.value
  }

  lemma CoordSetMeans(s: CoordList, y: int)
    ensures y in CoordSet(s) <==> Some(y) in s
  {
    if Some(y) in s {
      assert Some(y).value == y;
    }
  }

  /** `None` when b holds, nothing otherwise. */
  function NoneIf(b: bool): CoordList {
    if b then {None} else {}
  }

  /** The `goOn` loop: does the cage still have an undecided cell? */
  method CageUnsolved(poss: Poss, nodeSet: seq<Cell>) returns (goOn: bool)
    requires forall n :: n in nodeSet ==> n in poss
    ensures goOn == Unsolved(poss, nodeSet)
  {
    goOn := false;
    var j := 0;
    while j < |nodeSet|
      invariant 0 <= j <= |nodeSet|
      invariant forall p :: 0 <= p < j ==> |poss[nodeSet[p]]| == 1
    {
      if |poss[nodeSet[j]]| != 1 {
        goOn := true;
        break;
      }
      j := j + 1;
    }
  }

  /** The two coordinate lists of value v after the values of tuple i
      up to position j. */
  ghost predicate ValueCollected(K: seq<Cell>, S: seq<seq<int>>, i: nat, j: nat, v: int, rs: CoordList, cs: CoordList)
    requires i < |S| && j <= |S[i]|
  {
    && (None in rs <==> v !in S[0])
    && (None in cs <==> v !in S[0])
    && (forall y :: Some(y) in rs <==> y in CoordsUpTo(K, S, v, 0, i) + TupleCoords(K, S[i], v, 0, j))
    && (forall x :: Some(x) in cs <==> x in CoordsUpTo(K, S, v, 1, i) + TupleCoords(K, S[i], v, 1, j))
  }

  /** Both dictionaries after the values of tuple i up to position j. */
  ghost predicate CollectedUpTo(K: seq<Cell>, S: seq<seq<int>>, i: nat, j: nat, rowDic: map<int, CoordList>, columnDic: map<int, CoordList>)
    requires i < |S| && j <= |S[i]|
  {
    && rowDic.Keys == columnDic.Keys
    && (forall v :: v in rowDic <==> SeenBefore(S, v, i) || v in S[i][..j])
    && (forall v :: v in rowDic ==> ValueCollected(K, S, i, j, v, rowDic[v], columnDic[v]))
  }

  /** A value first seen at position j of tuple i starts with `None`
      unless i is the first tuple. */
  lemma CollectFresh(K: seq<Cell>, S: seq<seq<int>>, i: nat, j: nat, v: int)
    requires i < |S| && j <= |S[i]|
    requires !SeenBefore(S, v, i) && v !in S[i][..j] && (i == 0 ==> v in S[0])
    ensures ValueCollected(K, S, i, j, v, NoneIf(i != 0), NoneIf(i != 0))
  {
    CoordsUnseen(K, S, v, 0, i);
    CoordsUnseen(K, S, v, 1, i);
    TupleCoordsUnseen(K, S[i], v, 0, j);
    TupleCoordsUnseen(K, S[i], v, 1, j);
    if i != 0 {
      assert v !in S[0] by { assert !SeenBefore(S, v, i); }
    }
  }

  /** Position j of tuple i holds v: its cell's coordinates join the lists. */
  lemma CollectSame(K: seq<Cell>, S: seq<seq<int>>, i: nat, j: nat, v: int, rs: CoordList, cs: CoordList)
    requires i < |S| && j < |S[i]| && j < |K| && S[i][j] == v
    requires ValueCollected(K, S, i, j, v, rs, cs)
    ensures ValueCollected(K, S, i, j + 1, v, rs + {Some(K[j].1)}, cs + {Some(K[j].0)})
  {
    assert TupleCoords(K, S[i], v, 0, j + 1) == TupleCoords(K, S[i], v, 0, j) + {K[j].1};
    assert TupleCoords(K, S[i], v, 1, j + 1) == TupleCoords(K, S[i], v, 1, j) + {K[j].0};
  }

  /** Position j of tuple i holds another value: v's lists stay. */
  lemma CollectOther(K: seq<Cell>, S: seq<seq<int>>, i: nat, j: nat, v: int, rs: CoordList, cs: CoordList)
    requires i < |S| && j < |S[i]| && S[i][j] != v
    requires ValueCollected(K, S, i, j, v, rs, cs)
    ensures ValueCollected(K, S, i, j + 1, v, rs, cs)
  {
    assert TupleCoords(K, S[i], v, 0, j + 1) == TupleCoords(K, S[i], v, 0, j);
    assert TupleCoords(K, S[i], v, 1, j + 1) == TupleCoords(K, S[i], v, 1, j);
  }

  /** One position of the inner loop: value `possVal[j]` at cell `nodeSet[j]`. */
  method CollectStep(nodeSet: seq<Cell>, S: seq<seq<int>>, i: nat, j: nat, rowDic0: map<int, CoordList>, columnDic0: map<int, CoordList>)
    returns (rowDic: map<int, CoordList>, columnDic: map<int, CoordList>)
    requires i < |S| && j < |S[i]| && j < |nodeSet|
    requires CollectedUpTo(nodeSet, S, i, j, rowDic0, columnDic0)
    ensures CollectedUpTo(nodeSet, S, i, j + 1, rowDic, columnDic)
  {
    var val := S[i][j];
    var (x, y) := nodeSet[j];
    rowDic, columnDic := rowDic0, columnDic0;
    if val !in rowDic {
      CollectFresh(nodeSet, S, i, j, val);
      if i != 0 {
        rowDic := rowDic[val := {None}];
        columnDic := columnDic[val := {None}];
      } else {
        rowDic := rowDic[val := {}];
        columnDic := columnDic[val := {}];
      }
    }
    CollectSame(nodeSet, S, i, j, val, rowDic[val], columnDic[val]);
    columnDic := columnDic[val := columnDic[val] + {Some(x)}];
    rowDic := rowDic[val := rowDic[val] + {Some(y)}];
    assert S[i][..j + 1] == S[i][..j] + [val];
    forall v | v in rowDic && v != val
      ensures ValueCollected(nodeSet, S, i, j + 1, v, rowDic[v], columnDic[v])
    {
      CollectOther(nodeSet, S, i, j, v, rowDic0[v], columnDic0[v]);
    }
  }

  /** The inner `enumerate( possVal )` loop for tuple i. */
  method CollectTuple(nodeSet: seq<Cell>, S: seq<seq<int>>, i: nat, rowDic0: map<int, CoordList>, columnDic0: map<int, CoordList>)
    returns (rowDic: map<int, CoordList>, columnDic: map<int, CoordList>)
    requires i < |S| && |S[i]| <= |nodeSet|
    requires CollectedUpTo(nodeSet, S, i, 0, rowDic0, columnDic0)
    ensures CollectedUpTo(nodeSet, S, i, |S[i]|, rowDic, columnDic)
  {
    rowDic, columnDic := rowDic0, columnDic0;
    var j := 0;
    while j < |S[i]|
      invariant 0 <= j <= |S[i]|
      invariant CollectedUpTo(nodeSet, S, i, j, rowDic, columnDic)
    {
      rowDic, columnDic := CollectStep(nodeSet, S, i, j, rowDic, columnDic);
      j := j + 1;
    }
  }

  /** The two coordinate lists of value v after the first i tuples. */
  ghost predicate ValueSeen(K: seq<Cell>, S: seq<seq<int>>, i: nat, v: int, rs: CoordList, cs: CoordList)
    requires i <= |S|
  {
    && S != []
    && (None in rs <==> v !in S[0])
    && (None in cs <==> v !in S[0])
    && (forall y :: Some(y) in rs <==> y in CoordsUpTo(K, S, v, 0, i))
    && (forall x :: Some(x) in cs <==> x in CoordsUpTo(K, S, v, 1, i))
  }

  /** Both dictionaries after the first i tuples. */
  ghost predicate CollectedBefore(K: seq<Cell>, S: seq<seq<int>>, i: nat, rowDic: map<int, CoordList>, columnDic: map<int, CoordList>)
    requires i <= |S|
  {
    && rowDic.Keys == columnDic.Keys
    && (forall v :: v in rowDic <==> SeenBefore(S, v, i))
    && (forall v :: v in rowDic ==> ValueSeen(K, S, i, v, rowDic[v], columnDic[v]))
  }

  lemma CollectBegin(K: seq<Cell>, S: seq<seq<int>>, i: nat, rowDic: map<int, CoordList>, columnDic: map<int, CoordList>)
    requires i < |S| && CollectedBefore(K, S, i, rowDic, columnDic)
    ensures CollectedUpTo(K, S, i, 0, rowDic, columnDic)
  {
    assert S[i][..0] == [];
  }

  lemma CollectEnd(K: seq<Cell>, S: seq<seq<int>>, i: nat, rowDic: map<int, CoordList>, columnDic: map<int, CoordList>)
    requires i < |S| && CollectedUpTo(K, S, i, |S[i]|, rowDic, columnDic)
    ensures CollectedBefore(K, S, i + 1, rowDic, columnDic)
  {
    assert S[i][..|S[i]|] == S[i];
    assert forall v :: SeenBefore(S, v, i + 1) <==> SeenBefore(S, v, i) || v in S[i];
    forall v | v in rowDic ensures ValueSeen(K, S, i + 1, v, rowDic[v], columnDic[v]) {
      assert ValueCollected(K, S, i, |S[i]|, v, rowDic[v], columnDic[v]);
    }
  }

  /** After all the tuples, a value is seen iff some assignment holds it. */
  lemma SeenAll(S: seq<seq<int>>, v: int)
    ensures SeenBefore(S, v, |S|) <==> exists t :: t in S && v in t
  {
    if exists t :: t in S && v in t {
      var t :| t in S && v in t;
      var q :| 0 <= q < |S| && S[q] == t;
    }
  }

  /**
   * The `enumerate( possValList )` loop: per value seen, the lines of
   * each axis it takes, with `None` when it is first seen after the
   * first assignment.
   */
  method CollectCoordinates(nodeSet: seq<Cell>, S: seq<seq<int>>) returns (rowDic: map<int, CoordList>, columnDic: map<int, CoordList>)
    requires forall t :: t in S ==> |t| <= |nodeSet|
    ensures rowDic.Keys == columnDic.Keys
    ensures forall v :: v in rowDic <==> exists t :: t in S && v in t
    ensures forall v :: v in rowDic ==> S != [] && (None in rowDic[v] <==> v !in S[0]) && (None in columnDic[v] <==> v !in S[0])
    ensures forall v, y :: v in rowDic ==>
      (Some(y) in rowDic[v] <==> y in Coords(nodeSet, S, v, 0)) && (Some(y) in columnDic[v] <==> y in Coords(nodeSet, S, v, 1))
  {
    rowDic, columnDic := map[], map[];
    var i := 0;
    while i < |S|
      invariant 0 <= i <= |S|
      invariant CollectedBefore(nodeSet, S, i, rowDic, columnDic)
    {
      assert S[i] in S;
      CollectBegin(nodeSet, S, i, rowDic, columnDic);
      rowDic, columnDic := CollectTuple(nodeSet, S, i, rowDic, columnDic);
      CollectEnd(nodeSet, S, i, rowDic, columnDic);
      i := i + 1;
    }
    forall v ensures v in rowDic <==> exists t :: t in S && v in t {
      SeenAll(S, v);
    }
    forall v | v in rowDic ensures ValueSeen(nodeSet, S, |S|, v, rowDic[v], columnDic[v]) {
    }
  }


  /** A nonempty set of values has a member to pick. */
  lemma SomeMember(s: set<int>)
    requires s != {}
    ensures exists x :: x in s
  {
    if forall x :: x !in s {
      assert false;
    }
  }

  /** Some tuple before index p leaves v out. */
  ghost predicate MissingBefore(S: seq<seq<int>>, v: int, p: nat) {
    exists q :: 0 <= q < p && q < |S| && v !in S[q]
  }

  /** The `for possVal in possValList` loop for one value: its two lists
      gain `None` when some assignment leaves the value out. */
  method MarkValue(S: seq<seq<int>>, val: int, rowDic0: map<int, CoordList>, columnDic0: map<int, CoordList>)
    returns (rowDic: map<int, CoordList>, columnDic: map<int, CoordList>)
    requires val in rowDic0 && val in columnDic0
    ensures rowDic.Keys == rowDic0.Keys && columnDic.Keys == columnDic0.Keys
    ensures rowDic[val] == rowDic0[val] + NoneIf(Missing(S, val))
    ensures columnDic[val] == columnDic0[val] + NoneIf(Missing(S, val))
    ensures forall v :: v in rowDic && v != val ==> rowDic[v] == rowDic0[v]
    ensures forall v :: v in columnDic && v != val ==> columnDic[v] == columnDic0[v]
  {
    rowDic, columnDic := rowDic0, columnDic0;
    var p := 0;
    while p < |S|
      invariant 0 <= p <= |S|
      invariant rowDic.Keys == rowDic0.Keys && columnDic.Keys == columnDic0.Keys
      invariant rowDic[val] == rowDic0[val] + NoneIf(MissingBefore(S, val, p))
      invariant columnDic[val] == columnDic0[val] + NoneIf(MissingBefore(S, val, p))
      invariant forall v :: v in rowDic && v != val ==> rowDic[v] == rowDic0[v]
      invariant forall v :: v in columnDic && v != val ==> columnDic[v] == columnDic0[v]
    {
      if val !in S[p] {
        if None !in rowDic[val] {
          rowDic := rowDic[val := rowDic[val] + {None}];
        }
        if None !in columnDic[val] {
          columnDic := columnDic[val := columnDic[val] + {None}];
        }
      }
      assert MissingBefore(S, val, p + 1) <==> MissingBefore(S, val, p) || val !in S[p];
      p := p + 1;
    }
    assert MissingBefore(S, val, |S|) <==> Missing(S, val) by {
      if Missing(S, val) {
        var t :| t in S && val !in t;
        var q :| 0 <= q < |S| && S[q] == t;
      }
    }
  }

  /** The marking loop over every value seen. */
  method MarkUnnecessary(S: seq<seq<int>>, rowDic0: map<int, CoordList>, columnDic0: map<int, CoordList>)
    returns (rowDic: map<int, CoordList>, columnDic: map<int, CoordList>)
    requires rowDic0.Keys == columnDic0.Keys
    ensures rowDic.Keys == rowDic0.Keys && columnDic.Keys == columnDic0.Keys
    ensures forall v :: v in rowDic0 ==> rowDic[v] == rowDic0[v] + NoneIf(Missing(S, v))
    ensures forall v :: v in columnDic0 ==> columnDic[v] == columnDic0[v] + NoneIf(Missing(S, v))
  {
    rowDic, columnDic := rowDic0, columnDic0;
    var vals := rowDic0.Keys;
    while vals != {}
      invariant vals <= rowDic0.Keys
      invariant rowDic.Keys == rowDic0.Keys && columnDic.Keys == columnDic0.Keys
      invariant forall v :: v in vals ==> rowDic[v] == rowDic0[v] && columnDic[v] == columnDic0[v]
      invariant forall v :: v in rowDic0 && v !in vals ==>
        rowDic[v] == rowDic0[v] + NoneIf(Missing(S, v)) && columnDic[v] == columnDic0[v] + NoneIf(Missing(S, v))
      decreases vals
    {
      SomeMember(vals);
      var val :| val in vals;
      rowDic, columnDic := MarkValue(S, val, rowDic, columnDic);
      vals := vals - {val};
    }
  }

  /** The entries `masterDic` gains for one cage: key e = (v, axis, lines)
      when the axis list of v holds no `None` and names exactly those lines. */
  ghost predicate AxisEntry(rowDic: map<int, CoordList>, columnDic: map<int, CoordList>, e: (int, int, set<int>)) {
    && e.0 in rowDic && e.0 in columnDic
    && ((e.1 == 0 && None !in rowDic[e.0] && e.2 == CoordSet(rowDic[e.0]))
        || (e.1 == 1 && None !in columnDic[e.0] && e.2 == CoordSet(columnDic[e.0])))
  }

  /** The keys value `val` contributes. */
  lemma AxisEntryOf(rowDic: map<int, CoordList>, columnDic: map<int, CoordList>, val: int, e: (int, int, set<int>))
    requires val in rowDic && val in columnDic
    ensures (e.0 == val && AxisEntry(rowDic, columnDic, e)) <==>
      (None !in rowDic[val] && e == (val, 0, CoordSet(rowDic[val]))) || (None !in columnDic[val] && e == (val, 1, CoordSet(columnDic[val])))
  {
    var (v, axis, cs) := e;
    assert e == (v, axis, cs);
  }

  /** Every key of the table names at least one cage. */
  ghost predicate NonEmpty(m: Master) {
    forall e :: e in m ==> m[e] != {}
  }

  /** Cage K joins the entry for key e. */
  function AddTo(m: Master, e: (int, int, set<int>), K: seq<Cell>): (r: Master)
    ensures r.Keys == m.Keys + {e}
    ensures forall e' :: Entry(r, e') == Entry(m, e') + (if e' == e then {K} else {})
  {
    m[e := (if e in m then m[e] else {}) + {K}]
  }

  /** The cages the table lists under key e. */
  function Entry(m: Master, e: (int, int, set<int>)): set<seq<Cell>> {
    if e in m then m[e] else {}
  }

  /** The cage K's own entries, for the values outside `pending`. */
  ghost function CageEntries(K: seq<Cell>, rowDic: map<int, CoordList>, columnDic: map<int, CoordList>, pending: set<int>, e: (int, int, set<int>)): set<seq<Cell>> {
    if e.0 !in pending && AxisEntry(rowDic, columnDic, e) then {K} else {}
  }

  /** The entries value `val` of cage K adds under key e. */
  ghost function AddedBy(K: seq<Cell>, rowDic: map<int, CoordList>, columnDic: map<int, CoordList>, val: int, e: (int, int, set<int>)): set<seq<Cell>>
    requires val in rowDic && val in columnDic
  {
    if (None !in rowDic[val] && e == (val, 0, CoordSet(rowDic[val]))) || (None !in columnDic[val] && e == (val, 1, CoordSet(columnDic[val])))
    then {K} else {}
  }

  /** One round of the inversion loop keeps its invariant. */
  lemma AddValueEntries(m0: Master, before: Master, m: Master, K: seq<Cell>, rowDic: map<int, CoordList>, columnDic: map<int, CoordList>, vals: set<int>, val: int)
    requires val in vals && vals <= rowDic.Keys && rowDic.Keys == columnDic.Keys
    requires forall e :: Entry(before, e) == Entry(m0, e) + CageEntries(K, rowDic, columnDic, vals, e)
    requires forall e :: Entry(m, e) == Entry(before, e) + AddedBy(K, rowDic, columnDic, val, e)
    ensures forall e :: Entry(m, e) == Entry(m0, e) + CageEntries(K, rowDic, columnDic, vals - {val}, e)
  {
    forall e ensures Entry(m, e) == Entry(m0, e) + CageEntries(K, rowDic, columnDic, vals - {val}, e) {
      AxisEntryOf(rowDic, columnDic, val, e);
      assert CageEntries(K, rowDic, columnDic, vals - {val}, e) ==
        CageEntries(K, rowDic, columnDic, vals, e) + AddedBy(K, rowDic, columnDic, val, e);
    }
  }

  /** The "invert to add to the masterDic" loop. */
  method AddCage(m0: Master, nodeSet: seq<Cell>, rowDic: map<int, CoordList>, columnDic: map<int, CoordList>) returns (m: Master)
    requires rowDic.Keys == columnDic.Keys && NonEmpty(m0)
    ensures NonEmpty(m)
    ensures forall e :: Entry(m, e) == Entry(m0, e) + CageEntries(nodeSet, rowDic, columnDic, {}, e)
  {
    m := m0;
    var vals := rowDic.Keys;
    while vals != {}
      invariant vals <= rowDic.Keys && NonEmpty(m)
      invariant forall e :: Entry(m, e) == Entry(m0, e) + CageEntries(nodeSet, rowDic, columnDic, vals, e)
      decreases vals
    {
      SomeMember(vals);
      var val :| val in vals;
      ghost var before := m;
      var xKey := (val, 0, CoordSet(rowDic[val]));
      var yKey := (val, 1, CoordSet(columnDic[val]));
      if None !in rowDic[val] {
        m := AddTo(m, xKey, nodeSet);
      }
      ghost var middle := m;
      if None !in columnDic[val] {
        m := AddTo(m, yKey, nodeSet);
      }
      forall e ensures Entry(m, e) == Entry(before, e) + AddedBy(nodeSet, rowDic, columnDic, val, e) {
        assert Entry(middle, e) == Entry(before, e) + (if None !in rowDic[val] && e == xKey then {nodeSet} else {});
      }
      AddValueEntries(m0, before, m, nodeSet, rowDic, columnDic, vals, val);
      vals := vals - {val};
    }
  }



  /** The per-cage body of the first loop of `necessaryRuleValues`:
      an unsolved cage joins the entries it makes. */
  method RecordCage(m0: Master, poss: Poss, nodeSet: seq<Cell>, S: seq<seq<int>>) returns (m: Master)
    requires NonEmpty(m0)
    requires forall n :: n in nodeSet ==> n in poss
    requires forall t :: t in S ==> |t| <= |nodeSet|
    ensures NonEmpty(m)
    ensures forall e ::
      Entry(m, e) == Entry(m0, e) + (if Unsolved(poss, nodeSet) && CageEntry(nodeSet, S, e.0, e.1, e.2) then {nodeSet} else {})
  {
    var goOn := CageUnsolved(poss, nodeSet);
    m := m0;
    if goOn {
      var rowDic, columnDic := CollectCoordinates(nodeSet, S);
      var rowDic', columnDic' := MarkUnnecessary(S, rowDic, columnDic);
      m := AddCage(m, nodeSet, rowDic', columnDic');
      forall e ensures AxisEntry(rowDic', columnDic', e) <==> CageEntry(nodeSet, S, e.0, e.1, e.2) {
        var v := e.0;
        if v in rowDic {
          forall y ensures Some(y) in rowDic'[v] <==> y in Coords(nodeSet, S, v, 0) {
          }
          forall x ensures Some(x) in columnDic'[v] <==> x in Coords(nodeSet, S, v, 1) {
          }
          CoordSetIs(rowDic'[v], Coords(nodeSet, S, v, 0));
          CoordSetIs(columnDic'[v], Coords(nodeSet, S, v, 1));
          NecessaryIff(S, v);
        }
      }
    } else {
      assert forall e: (int, int, set<int>) :: !(Unsolved(poss, nodeSet) && CageEntry(nodeSet, S, e.0, e.1, e.2));
    }
  }

  /** s lists exactly the coordinates cs. */
  lemma CoordSetIs(s: CoordList, cs: set<int>)
    requires forall y :: Some(y) in s <==> y in cs
    ensures CoordSet(s) == cs
  {
    forall y ensures y in CoordSet(s) <==> y in cs {
      CoordSetMeans(s, y);
    }
  }

  /** A value is necessary iff the first assignment holds it and no
      assignment leaves it out. */
  lemma NecessaryIff(S: seq<seq<int>>, v: int)
    requires S != []
    ensures Necessary(S, v) <==> v in S[0] && !Missing(S, v)
  {
    assert S[0] in S;
  }

  /** The table's entries, cage by cage. */
  ghost predicate CagesInTable(st: St) {
    forall K, n :: K in st.solve && n in K ==> n in st.poss
  }

  /** One cage of the first loop keeps the table's description. */
  lemma RecordStep(m: Master, m': Master, st: St, done: set<seq<Cell>>, K: seq<Cell>)
    requires DescribesOver(m, st, done) && K in st.solve && NonEmpty(m')
    requires forall e ::
      Entry(m', e) == Entry(m, e) + (if Unsolved(st.poss, K) && CageEntry(K, st.solve[K], e.0, e.1, e.2) then {K} else {})
    ensures DescribesOver(m', st, done + {K})
  {
    forall e, K' ensures K' in Entry(m', e) <==>
      K' in done + {K} && K' in st.solve && Unsolved(st.poss, K') && CageEntry(K', st.solve[K'], e.0, e.1, e.2)
    {
      DescribesAt(m, st, done, e, K');
    }
  }

  /**
   * The first loop of `necessaryRuleValues`: `masterDic` built over
   * every cage of the assignment table.
   */
  method BuildMaster(poss: Poss, solve: Solve) returns (masterDic: Master)
    requires Shaped(St(poss, solve)) && CagesInTable(St(poss, solve))
    ensures Describes(masterDic, St(poss, solve))
    ensures masterDic == MasterOf(St(poss, solve))
  {
    ghost var st := St(poss, solve);
    masterDic := map[];
    var cages := solve.Keys;
    while cages != {}
      invariant cages <= solve.Keys
      invariant DescribesOver(masterDic, st, solve.Keys - cages)
      decreases cages
    {
      var nodeSet :| nodeSet in cages;
      ghost var before := masterDic;
      masterDic := RecordCage(masterDic, poss, nodeSet, solve[nodeSet]);
      RecordStep(before, masterDic, st, solve.Keys - cages, nodeSet);
      assert solve.Keys - cages + {nodeSet} == solve.Keys - (cages - {nodeSet});
      cages := cages - {nodeSet};
    }
    assert solve.Keys - cages == solve.Keys;
    MasterOfDescribes(st);
    DescribesUnique(masterDic, MasterOf(st), st);
  }
}
