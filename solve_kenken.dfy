/**
 * The solver object of SolveKenKen.py: a local copy of a puzzle's rule
 * list and tables, and the elimination passes that narrow them down.
 *
 * Every method is proved against the value-level description of its pass
 * in SolverSpec, Enumerator and Reductions: the state a method leaves is
 * that function of the state it found, and the properties of the passes
 * are lemmas about those functions.
 */
module SolveKenKen {
  import opened Lists
  import opened Itertools
  import opened KenKenClass
  import opened SolverSpec
  import opened Enumerator
  import opened Reductions
  import opened Necessary
  import opened NecessaryRule

  // -----------------------------------------------------------------------
  // removeDuplicates
  // -----------------------------------------------------------------------

  /**
   * `removeDuplicates(z)`: sort, then walk the list popping every element
   * equal to its predecessor. The result is strictly increasing and has
   * exactly the elements of z.
   */
  method RemoveDuplicates<T(==,!new)>(z: seq<T>, lt: (T, T) -> bool) returns (r: seq<T>)
    requires StrictTotalOrder(lt)
    ensures StrictlyIncreasing(r, lt)
    ensures forall x :: x in r <==> x in z
    ensures r == Dedup(z, lt)
  {
    var w := Sort(z, lt);
    assert forall x :: x in w <==> x in multiset(z);
    var j := 0;
    while j + 1 < |w|
      invariant 0 <= j && (w == [] || j < |w|)
      invariant Sorted(w, lt)
      invariant forall x :: x in w <==> x in z
      invariant forall a, b :: 0 <= a < b <= j && b < |w| ==> lt(w[a], w[b])
      decreases |w| - j
    {
      if w[j] == w[j + 1] {
        PopDuplicate(w, j, lt);
        w := w[..j + 1] + w[j + 2..];
      } else {
        StepPastDistinct(w, j, lt);
        j := j + 1;
      }
    }
    assert StrictlyIncreasing(w, lt);
    r := w;
    StrictlyIncreasingUnique(r, Dedup(z, lt), lt);
  }

  /** Two distinct sorted neighbours extend the strictly increasing prefix. */
  lemma StepPastDistinct<T(!new)>(w: seq<T>, j: nat, lt: (T, T) -> bool)
    requires StrictTotalOrder(lt)
    requires j + 1 < |w| && w[j] != w[j + 1] && Sorted(w, lt)
    requires forall a, b :: 0 <= a < b <= j ==> lt(w[a], w[b])
    ensures forall a, b :: 0 <= a < b <= j + 1 && b < |w| ==> lt(w[a], w[b])
  {
    assert lt(w[j], w[j + 1]);
  }

  /** Popping the second of two equal neighbours keeps the list sorted,
      keeps its elements and keeps the strictly increasing prefix. */
  lemma PopDuplicate<T(!new)>(w: seq<T>, j: nat, lt: (T, T) -> bool)
    requires j + 1 < |w| && w[j] == w[j + 1] && Sorted(w, lt)
    requires forall a, b :: 0 <= a < b <= j ==> lt(w[a], w[b])
    ensures var w' := w[..j + 1] + w[j + 2..];
      && |w'| == |w| - 1
      && Sorted(w', lt)
      && (forall x :: x in w' <==> x in w)
      && (forall a, b :: 0 <= a < b <= j && b < |w'| ==> lt(w'[a], w'[b]))
  {
    var w' := w[..j + 1] + w[j + 2..];
    assert forall i :: 0 <= i <= j ==> w'[i] == w[i];
    assert forall i :: j < i < |w'| ==> w'[i] == w[i + 1];
    forall x | x in w ensures x in w' {
      var i :| 0 <= i < |w| && w[i] == x;
      if i == j + 1 { assert w'[j] == x; }
      else if i > j + 1 { assert w'[i - 1] == x; }
      else { assert w'[i] == x; }
    }
  }

  // -----------------------------------------------------------------------
  // The rules the solver works on
  // -----------------------------------------------------------------------

  /**
   * The rules as `createRules` makes them: every cage is a key of the
   * assignment table, a list of distinct board cells; a one-cell cage is
   * an EQUALS rule and every other rule is a sum or product, or a
   * difference or quotient of two cells.
   */
  ghost predicate RulesShaped(size: int, st: St, rules: seq<Rule>) {
    forall r :: r in rules ==>
      && r.cells in st.solve
      && NoDup(r.cells)
      && (forall c :: c in r.cells ==> c in Grid(size))
      && (if r.op == EQUALS then |r.cells| == 1 else Enumerable(r))
  }

  /** The position of the first EQUALS rule, or the length when there is none. */
  function FirstEquals(rules: seq<Rule>): (q: nat)
    ensures q <= |rules|
    ensures forall i :: 0 <= i < q ==> rules[i].op != EQUALS
    ensures q < |rules| ==> rules[q].op == EQUALS
  {
    if rules == [] then 0
    else if rules[0].op == EQUALS then 0
    else 1 + FirstEquals(rules[1..])
  }

  /** The rules before the first EQUALS rule can be pared. */
  lemma PrefixParable(size: int, st: St, rules: seq<Rule>, q: nat)
    requires RulesShaped(size, st, rules)
    requires q <= FirstEquals(rules)
    ensures ParableRules(size, rules[..q]) && RulesInTable(st, rules[..q])
  {
    forall r | r in rules[..q] ensures Enumerable(r) {
      var i :| 0 <= i < q && rules[..q][i] == r;
      assert rules[i] == r;
    }
  }

  /** `pareValues` one rule further. */
  lemma PareAllStep(size: int, st: St, rules: seq<Rule>, q: nat)
    requires RulesShaped(size, st, rules) && Grid(size) <= st.poss.Keys
    requires q < FirstEquals(rules)
    ensures ParableRules(size, rules[..q]) && ParableRules(size, rules[..q + 1])
    ensures Enumerable(rules[q]) && OnBoard(size, PareAll(size, st, rules[..q]).poss, rules[q].cells)
    ensures PareAll(size, st, rules[..q + 1]) == PareRule(size, PareAll(size, st, rules[..q]), rules[q])
  {
    PrefixParable(size, st, rules, q);
    PrefixParable(size, st, rules, q + 1);
    assert rules[..q + 1][..q] == rules[..q];
    assert rules[..q + 1][q] == rules[q];
    assert rules[q] in rules;
  }

  /** Rules shaped for one state are shaped for any state with the same cages. */
  lemma RulesShapedSameKeys(size: int, st: St, nw: St, rules: seq<Rule>, rules': seq<Rule>)
    requires RulesShaped(size, st, rules)
    requires nw.solve.Keys == st.solve.Keys
    requires forall r :: r in rules' ==> r in rules
    ensures RulesShaped(size, nw, rules')
  {
  }

  // -----------------------------------------------------------------------
  // The solved test and the progress measure
  // -----------------------------------------------------------------------

  /** Every cell of the candidate table has exactly one candidate. */
  ghost predicate AllSingle(poss: Poss) {
    forall c :: c in poss ==> |poss[c]| == 1
  }

  /** The number of assignments the given cages hold together. */
  ghost function TotalOf(solve: Solve, keys: set<seq<Cell>>): nat
    requires keys <= solve.Keys
    decreases keys
  {
    if keys == {} then 0
    else
      var K :| K in keys;
      |solve[K]| + TotalOf(solve, keys - {K})
  }

  /** The total does not depend on the order the cages are counted in:
      any cage can be counted first. */
  lemma {:induction false} TotalOfRemove(solve: Solve, keys: set<seq<Cell>>, K: seq<Cell>)
    requires keys <= solve.Keys && K in keys
    ensures TotalOf(solve, keys) == |solve[K]| + TotalOf(solve, keys - {K})
    decreases keys
  {
    var K' :| K' in keys && TotalOf(solve, keys) == |solve[K']| + TotalOf(solve, keys - {K'});
    if K' != K {
      TotalOfRemove(solve, keys - {K'}, K);
      TotalOfRemove(solve, keys - {K}, K');
      assert keys - {K'} - {K} == keys - {K} - {K'};
    }
  }

  /** `scipy.sum([len(solveDic[key]) for key in solveDic])`. */
  ghost function Total(solve: Solve): nat {
    TotalOf(solve, solve.Keys)
  }

  /** `removeDuplicates(sorted(column))` is the column's candidates. */
  lemma SortedCandidates(S: seq<seq<int>>, i: nat)
    requires forall t :: t in S ==> i < |t|
    ensures StrictTotalOrder(IntLess)
    ensures Dedup(Sort(Column(S, i), IntLess), IntLess) == Candidates(S, i)
  {
    IntLessOrder();
    var col := Column(S, i);
    var d := Dedup(Sort(col, IntLess), IntLess);
    assert forall x :: x in Sort(col, IntLess) <==> x in multiset(col);
    forall x ensures x in d <==> x in Candidates(S, i) {
      CandidatesMeans(S, i, x);
      if x in col {
        var k :| 0 <= k < |col| && col[k] == x;
        assert S[k] in S;
      }
      if x in Candidates(S, i) {
        var t :| t in S && t[i] == x;
        var k :| 0 <= k < |S| && S[k] == t;
        assert col[k] == x;
      }
    }
    CandidatesIncreasing(S, i);
    StrictlyIncreasingUnique(d, Candidates(S, i), IntLess);
  }

  /** The flattening loop of `pareValues`: the lists appended in turn. */
  method FlattenLists<T(!new)>(parts: seq<seq<T>>) returns (temp: seq<T>)
    ensures temp == Flatten(parts)
  {
    temp := [];
    var e := 0;
    while e < |parts|
      invariant 0 <= e <= |parts|
      invariant temp == Flatten(parts[..e])
    {
      assert parts[..e + 1] == parts[..e] + [parts[e]];
      FlattenAppend(parts[..e], [parts[e]]);
      FlattenOne(parts[e]);
      temp := temp + parts[e];
      e := e + 1;
    }
    assert parts[..|parts|] == parts;
  }

  /** The loop body of `updateSolveAndPoss`: the position-i values of the
      tuples, sorted and without repeats. */
  method PositionCandidates(S: seq<seq<int>>, i: nat) returns (z: seq<int>)
    requires forall t :: t in S ==> i < |t|
    ensures z == Candidates(S, i)
  {
    IntLessOrder();
    z := Sort(Column(S, i), IntLess);
    z := RemoveDuplicates(z, IntLess);
    SortedCandidates(S, i);
  }

  /** `pareValues` up to the first EQUALS rule the list still holds. */
  ghost function PareUpTo(size: int, st: St, rules: seq<Rule>): St
    requires RulesShaped(size, st, rules) && Grid(size) <= st.poss.Keys
  {
    PrefixParable(size, st, rules, FirstEquals(rules));
    PareAll(size, st, rules[..FirstEquals(rules)])
  }

  /** `pareValues` keeps the tables well formed and the rules fitting them. */
  lemma PareUpToValid(size: int, st: St, rules: seq<Rule>)
    requires WellFormed(size, st) && RulesShaped(size, st, rules)
    ensures WellFormed(size, PareUpTo(size, st, rules)) && RulesShaped(size, PareUpTo(size, st, rules), rules)
    ensures Shrinks(st.poss, PareUpTo(size, st, rules).poss)
    ensures PareUpTo(size, st, rules).poss.Keys == st.poss.Keys && PareUpTo(size, st, rules).solve.Keys == st.solve.Keys
  {
    var q := FirstEquals(rules);
    PrefixParable(size, st, rules, q);
    PareAllWellFormed(size, st, rules[..q]);
  }

  /** The cells `setNodeEqual(node, val)` has struck once its loop has
      reached a. */
  predicate StruckBefore(node: Cell, c: Cell, a: int) {
    && c != node
    && ((c.0 == node.0 && 0 <= c.1 < a) || (c.1 == node.1 && 0 <= c.0 < a))
  }

  /** One round of `setNodeEqual`'s loop: val leaves (i, a) unless a is
      j, then (a, j) unless a is i, each when the cell has a list. */
  function StrikeStep(p: Poss, node: Cell, val: int, a: int): Poss {
    var p1 := if a != node.1 && (node.0, a) in p then p[(node.0, a) := RemoveFirst(p[(node.0, a)], val)] else p;
    if a != node.0 && (a, node.1) in p1 then p1[(a, node.1) := RemoveFirst(p1[(a, node.1)], val)] else p1
  }

  /** The rounds 0..a-1 of `setNodeEqual`'s loop. */
  function StrikeUpTo(p: Poss, node: Cell, val: int, a: nat): Poss {
    if a == 0 then p else StrikeStep(StrikeUpTo(p, node, val, a - 1), node, val, a - 1)
  }

  /** The table once `setNodeEqual`'s loop has reached a: the node holds
      just val, the cells struck so far have lost val and the others are
      as in p0. */
  ghost predicate StruckSoFar(p0: Poss, p: Poss, node: Cell, val: int, a: int) {
    && p.Keys == p0.Keys + {node}
    && p[node] == [val]
    && forall c :: c in p0 && c != node ==>
      p[c] == if StruckBefore(node, c, a) then RemoveFirst(p0[c], val) else p0[c]
  }

  /** One round strikes the cells of the row and column at position a. */
  lemma StrikeRound(p0: Poss, p: Poss, node: Cell, val: int, a: int)
    requires 0 <= a && StruckSoFar(p0, p, node, val, a)
    ensures StruckSoFar(p0, StrikeStep(p, node, val, a), node, val, a + 1)
  {
    var p2 := StrikeStep(p, node, val, a);
    forall c | c in p0 && c != node
      ensures p2[c] == if StruckBefore(node, c, a + 1) then RemoveFirst(p0[c], val) else p0[c]
    {
      if c == (node.0, a) && a != node.1 {
        assert !StruckBefore(node, c, a);
      } else if c == (a, node.1) && a != node.0 {
        assert !StruckBefore(node, c, a);
      } else {
        assert StruckBefore(node, c, a + 1) == StruckBefore(node, c, a);
      }
    }
  }

  /** After a rounds the cells struck so far have lost val. */
  lemma {:induction false} StrikeUpToMeans(p0: Poss, node: Cell, val: int, a: nat)
    ensures StruckSoFar(p0, StrikeUpTo(p0[node := [val]], node, val, a), node, val, a)
  {
    if a > 0 {
      StrikeUpToMeans(p0, node, val, a - 1);
      StrikeRound(p0, StrikeUpTo(p0[node := [val]], node, val, a - 1), node, val, a - 1);
    }
  }

  /** The nine rounds of `setNodeEqual`'s loop leave the table `SetEqual` describes. */
  lemma StrikeDone(p0: Poss, node: Cell, val: int)
    ensures StrikeUpTo(p0[node := [val]], node, val, STRIKE_SPAN) == SetEqual(p0, node, val)
  {
    StrikeUpToMeans(p0, node, val, STRIKE_SPAN);
    assert forall c :: StruckBefore(node, c, STRIKE_SPAN) == Struck(node, c);
  }

  /** Before the inner loop of `dropValsFromNodesRow` the tables are as they were. */
  lemma DropsFromNone(st0: St, val: int, nodes: seq<Cell>)
    requires Shaped(st0)
    ensures ApplyDrops(st0, DropsUpTo(val, nodes, 0)) == st0
  {
    ApplyNoDrops(st0);
  }

  /** After the inner loop of `dropValsFromNodesRow` val has left every cell of nodes. */
  lemma DropsFromAll(st0: St, val: int, nodes: seq<Cell>)
    requires Shaped(st0)
    ensures ApplyDrops(st0, DropsUpTo(val, nodes, |nodes|)) == ApplyDrops(st0, ValDrops(val, nodes))
  {
    DropsUpToAll(val, nodes);
  }

  /** The tests one subset further. */
  lemma ReduceStep(st: St, tasks: seq<Task>, L: seq<Cell>, sub: seq<Cell>)
    requires Shaped(st)
    ensures Reduce(st, tasks + [(L, sub)]) == SubsetStep(Reduce(st, tasks), L, sub)
  {
    var all := tasks + [(L, sub)];
    assert all[..|all| - 1] == tasks;
  }

  /** Every subset `itertools.combinations` gives for size i has i cells. */
  lemma CombinationsSized(L: seq<Cell>, i: nat)
    ensures forall k :: 0 <= k < |Combinations(L, i)| ==> |Combinations(L, i)[k]| == i
  {
    forall k | 0 <= k < |Combinations(L, i)|
      ensures |Combinations(L, i)[k]| == i
    {
      CombinationSound(L, i, Combinations(L, i)[k]);
    }
  }

  /** Taking one more subset from a list adds its task at the end. */
  lemma TasksForSnoc(L: seq<Cell>, done: seq<seq<Cell>>, combos: seq<seq<Cell>>, q: nat)
    requires q < |combos|
    ensures TasksFor(L, done + combos[..q]) + [(L, combos[q])] == TasksFor(L, done + combos[..q + 1])
  {
    assert combos[..q + 1] == combos[..q] + [combos[q]];
    assert done + combos[..q + 1] == (done + combos[..q]) + [combos[q]];
    TasksForAppend(L, done + combos[..q], [combos[q]]);
    assert [combos[q]][1..] == [];
  }

  /** The subsets of sizes 2..i and then those of size i are those of sizes 2..i+1. */
  lemma LineSubsetsNext(L: seq<Cell>, i: nat)
    requires 2 <= i
    ensures LineSubsets(L, 2, i) + Combinations(L, i)[..|Combinations(L, i)|] == LineSubsets(L, 2, i + 1)
  {
    assert Combinations(L, i)[..|Combinations(L, i)|] == Combinations(L, i);
  }

  /** A line has no subset tests with fewer than 3 cells. */
  lemma LineSubsetsNone(L: seq<Cell>, hi: nat)
    requires hi <= 2
    ensures LineSubsets(L, 2, hi) == []
  {
  }

  /** Row i's tests and then column i's tests extend `subGroups`'s tests. */
  lemma SubGroupsStep(size: nat, st0: St, i: nat)
    requires Shaped(st0)
    ensures Reduce(st0, SubGroupTasks(size, i + 1)) ==
      Reduce(Reduce(st0, SubGroupTasks(size, i) + LineTasks(size, RowCells(size, i))), LineTasks(size, ColumnCells(size, i)))
  {
    ReduceAppend(st0, SubGroupTasks(size, i) + LineTasks(size, RowCells(size, i)), LineTasks(size, ColumnCells(size, i)));
  }

  // -----------------------------------------------------------------------
  // necessaryRuleValues: the helpers of the second loop
  // -----------------------------------------------------------------------

  /** The inner loop of `reduceIndices`: the elements of indexSet not yet
      in reduceList are appended to it. */
  method AddIndices(reduceList0: seq<int>, indexSet: set<int>) returns (reduceList: seq<int>)
    ensures forall x :: x in reduceList <==> x in reduceList0 || x in indexSet
  {
    reduceList := reduceList0;
    var rest := indexSet;
    while rest != {}
      invariant rest <= indexSet
      invariant forall x :: x in reduceList <==> x in reduceList0 || x in indexSet - rest
      decreases rest
    {
      SomeMember(rest);
      var el :| el in rest;
      if el !in reduceList {
        reduceList := reduceList + [el];
      }
      rest := rest - {el};
    }
  }

  /** The loops of `reduceIndices`: every line of the group, once. */
  method GatherIndices(indexSetGroup: seq<set<int>>) returns (reduceList: seq<int>)
    ensures forall x :: x in reduceList <==> x in UnionOf(indexSetGroup)
  {
    reduceList := [];
    var p := 0;
    while p < |indexSetGroup|
      invariant 0 <= p <= |indexSetGroup|
      invariant forall x :: x in reduceList <==> x in UnionOf(indexSetGroup[..p])
    {
      assert indexSetGroup[..p + 1][..p] == indexSetGroup[..p];
      reduceList := AddIndices(reduceList, indexSetGroup[p]);
      p := p + 1;
    }
    assert indexSetGroup[..p] == indexSetGroup;
  }

  /** `reduceIndices(indexSetGroup)`: the lines the keys of a group name,
      sorted and without repeats. */
  method ReduceIndices(indexSetGroup: seq<set<int>>) returns (coordSet: seq<int>)
    ensures StrictlyIncreasing(coordSet, IntLess)
    ensures forall x :: x in coordSet <==> x in UnionOf(indexSetGroup)
    ensures Elems(coordSet) == UnionOf(indexSetGroup) && |coordSet| == |UnionOf(indexSetGroup)|
  {
    var reduceList := GatherIndices(indexSetGroup);
    IntLessOrder();
    coordSet := RemoveDuplicates(reduceList, IntLess);
    StrictlyIncreasingNoDup(coordSet, IntLess);
    NoDupCard(coordSet);
    forall x ensures x in Elems(coordSet) <==> x in UnionOf(indexSetGroup) {
      assert x in Elems(coordSet) <==> x in coordSet;
    }
    assert Elems(coordSet) == UnionOf(indexSetGroup);
  }

  /** `coordDic.keys()` for `coordDic = masterDic[intVal][axis]`. */
  method CoordKeys(masterDic: Master, intVal: int, axis: int) returns (coordKeys: seq<set<int>>)
    ensures NoDup(coordKeys)
    ensures forall g :: g in coordKeys <==> g in KeysOf(masterDic, intVal, axis)
  {
    coordKeys := [];
    var rest := masterDic.Keys;
    while rest != {}
      invariant rest <= masterDic.Keys
      invariant NoDup(coordKeys)
      invariant forall g :: g in coordKeys <==>
        exists e :: e in masterDic && e !in rest && e.0 == intVal && e.1 == axis && e.2 == g
      decreases rest
    {
      var e :| e in rest;
      if e.0 == intVal && e.1 == axis {
        forall i | 0 <= i < |coordKeys| ensures coordKeys[i] != e.2 {
          assert coordKeys[i] in coordKeys;
        }
        coordKeys := coordKeys + [e.2];
      }
      rest := rest - {e};
    }
  }

  /** One more key of the group adds its cages and their number. */
  lemma GroupRulesStep(m: Master, v: int, axis: int, group: seq<set<int>>, p: nat)
    requires p < |group|
    ensures RuleCount(m, v, axis, group[..p + 1]) == RuleCount(m, v, axis, group[..p]) + |Entry(m, (v, axis, group[p]))|
    ensures RulesOf(m, v, axis, group[..p + 1]) == RulesOf(m, v, axis, group[..p]) + Entry(m, (v, axis, group[p]))
  {
    var pre := group[..p + 1];
    assert pre[..|pre| - 1] == group[..p] && pre[|pre| - 1] == group[p];
  }

  /** `ruleList += coordDic[indexSet]` over the group: the number of
      cages listed under its keys, and the cages themselves. */
  method GroupRules(masterDic: Master, intVal: int, axis: int, indexSetGroup: seq<set<int>>) returns (ruleCount: nat, ruleList: set<seq<Cell>>)
    ensures ruleCount == RuleCount(masterDic, intVal, axis, indexSetGroup)
    ensures ruleList == RulesOf(masterDic, intVal, axis, indexSetGroup)
  {
    ruleCount, ruleList := 0, {};
    var p := 0;
    while p < |indexSetGroup|
      invariant 0 <= p <= |indexSetGroup|
      invariant ruleCount == RuleCount(masterDic, intVal, axis, indexSetGroup[..p])
      invariant ruleList == RulesOf(masterDic, intVal, axis, indexSetGroup[..p])
    {
      var rules := Entry(masterDic, (intVal, axis, indexSetGroup[p]));
      GroupRulesStep(masterDic, intVal, axis, indexSetGroup, p);
      ruleCount := ruleCount + |rules|;
      ruleList := ruleList + rules;
      p := p + 1;
    }
    assert indexSetGroup[..p] == indexSetGroup;
  }

  /** `isDropNode`: node lies in none of the cages of ruleList. */
  method IsDropNode(node: Cell, ruleList: set<seq<Cell>>) returns (isDropNode: bool)
    ensures isDropNode == !InRules(node, ruleList)
  {
    isDropNode := true;
    var rest := ruleList;
    while rest != {}
      invariant rest <= ruleList
      invariant isDropNode == !exists K :: K in ruleList && K !in rest && node in K
      decreases rest
    {
      var ruleNodeSet :| ruleNodeSet in rest;
      if node in ruleNodeSet {
        isDropNode := false;
      }
      rest := rest - {ruleNodeSet};
    }
  }

  /** `dropNodes` for line coord: the cells (k, coord) of a row key (axis
      0) or (coord, k) of a column key (axis 1), k < size, outside the
      cages of ruleList. */
  method LineDropNodes(size: nat, axis: int, coord: int, ruleList: set<seq<Cell>>) returns (dropNodes: seq<Cell>)
    ensures forall v :: DropSet([v], dropNodes) == LineDrops(v, axis, coord, ruleList, size)
  {
    dropNodes := [];
    var k := 0;
    while k < size
      invariant 0 <= k <= size
      invariant forall n :: n in dropNodes <==>
        exists k' :: 0 <= k' < k && n == LineCell(axis, coord, k') && !InRules(n, ruleList)
    {
      var node := if axis == 0 then (k, coord) else (coord, k);
      assert node == LineCell(axis, coord, k);
      var isDropNode := IsDropNode(node, ruleList);
      if isDropNode {
        dropNodes := dropNodes + [node];
      }
      k := k + 1;
    }
  }

  // -----------------------------------------------------------------------
  // The solver
  // -----------------------------------------------------------------------

  // -----------------------------------------------------------------------
  // One cycle of solveKenKen
  // -----------------------------------------------------------------------

  /** Once `cleanSingles` has run the list holds no EQUALS rule, and it
      leaves such a list as it is. */
  lemma OtherRulesTwice(rules: seq<Rule>)
    ensures EqualsRules(OtherRules(rules)) == []
    ensures OtherRules(OtherRules(rules)) == OtherRules(rules)
    ensures FirstEquals(OtherRules(rules)) == |OtherRules(rules)|
  {
    NoEqualsPicked(OtherRules(rules));
    NoEqualsOther(OtherRules(rules));
  }

  /** `cleanSingles` keeps the tables well formed and the remaining rules
      fitting them. */
  lemma CleanSinglesValid(size: int, st: St, rules: seq<Rule>)
    requires WellFormed(size, st) && RulesShaped(size, st, rules)
    ensures forall r :: r in EqualsRules(rules) ==> |r.cells| >= 1
    ensures WellFormed(size, Reductions.CleanSingles(st, EqualsRules(rules)))
    ensures RulesShaped(size, Reductions.CleanSingles(st, EqualsRules(rules)), OtherRules(rules))
  {
    assert SinglesInTable(size, st, EqualsRules(rules));
    CleanSinglesWellFormed(size, st, EqualsRules(rules));
    RulesShapedSameKeys(size, st, Reductions.CleanSingles(st, EqualsRules(rules)), rules, OtherRules(rules));
  }

  /**
   * One pass of the `while` loop of `solveKenKen`: `cleanSingles`, then
   * `pareValues` on what is left of the rule list, `subGroups` and
   * `necessaryRuleValues`.
   */
  ghost function Cycle(size: nat, st: St, rules: seq<Rule>): St
    requires WellFormed(size, st) && RulesShaped(size, st, rules)
  {
    CleanSinglesValid(size, st, rules);
    var s1 := Reductions.CleanSingles(st, EqualsRules(rules));
    PareUpToValid(size, s1, OtherRules(rules));
    var s2 := PareUpTo(size, s1, OtherRules(rules));
    var s3 := Reductions.SubGroups(size, s2);
    ApplyDrops(s3, NecessaryDrops(MasterOf(s3), size))
  }

  /**
   * A cycle keeps the tables well formed, the cells and cages the same
   * and the rules left after `cleanSingles` fitting them.
   */
  lemma CycleValid(size: nat, st: St, rules: seq<Rule>)
    requires WellFormed(size, st) && RulesShaped(size, st, rules)
    ensures WellFormed(size, Cycle(size, st, rules))
    ensures Cycle(size, st, rules).poss.Keys == st.poss.Keys && Cycle(size, st, rules).solve.Keys == st.solve.Keys
    ensures RulesShaped(size, Cycle(size, st, rules), OtherRules(rules))
  {
    CleanSinglesValid(size, st, rules);
    var s1 := Reductions.CleanSingles(st, EqualsRules(rules));
    PareUpToValid(size, s1, OtherRules(rules));
    var s2 := PareUpTo(size, s1, OtherRules(rules));
    ReduceWellFormed(size, s2, SubGroupTasks(size, size));
    var s3 := Reductions.SubGroups(size, s2);
    var s4 := ApplyDrops(s3, NecessaryDrops(MasterOf(s3), size));
    assert Cycle(size, st, rules) == s4;
    CleanSinglesWellFormed(size, st, EqualsRules(rules));
    assert s4.poss.Keys == s3.poss.Keys == s2.poss.Keys == s1.poss.Keys;
    assert s4.solve.Keys == s3.solve.Keys == s2.solve.Keys == s1.solve.Keys;
    ApplyDropsWellFormed(size, s3, NecessaryDrops(MasterOf(s3), size));
    RulesShapedSameKeys(size, s2, s4, OtherRules(rules), OtherRules(rules));
  }

  /** The passes of a cycle, one after the other, make the cycle. */
  lemma CycleIs(size: nat, st: St, rules: seq<Rule>, s1: St, s2: St, s3: St, s4: St)
    requires WellFormed(size, st) && RulesShaped(size, st, rules)
    requires s1 == Reductions.CleanSingles(st, EqualsRules(rules))
    requires RulesShaped(size, s1, OtherRules(rules)) && Grid(size) <= s1.poss.Keys
    requires s2 == PareUpTo(size, s1, OtherRules(rules))
    requires Shaped(s2) && s3 == Reductions.SubGroups(size, s2)
    requires s4 == ApplyDrops(s3, NecessaryDrops(MasterOf(s3), size))
    ensures s4 == Cycle(size, st, rules)
  {
  }

  /** The rule list after n cycles: EQUALS rules leave it in the first. */
  function RulesAfter(rules: seq<Rule>, n: nat): seq<Rule> {
    if n == 0 then rules else OtherRules(rules)
  }

  /** The tables after n cycles of `solveKenKen`. */
  ghost function Cycles(size: nat, st: St, rules: seq<Rule>, n: nat): (r: St)
    requires WellFormed(size, st) && RulesShaped(size, st, rules)
    ensures WellFormed(size, r) && RulesShaped(size, r, RulesAfter(rules, n))
    ensures r.poss.Keys == st.poss.Keys && r.solve.Keys == st.solve.Keys
    decreases n, 1
  {
    if n == 0 then st else NthCycle(size, st, rules, n)
  }

  /** The n-th cycle of `solveKenKen`, run on the tables after the first n - 1. */
  ghost function NthCycle(size: nat, st: St, rules: seq<Rule>, n: nat): (r: St)
    requires 1 <= n && WellFormed(size, st) && RulesShaped(size, st, rules)
    ensures WellFormed(size, r) && RulesShaped(size, r, RulesAfter(rules, n))
    ensures r.poss.Keys == st.poss.Keys && r.solve.Keys == st.solve.Keys
    decreases n, 0
  {
    var prev := Cycles(size, st, rules, n - 1);
    CycleValid(size, prev, RulesAfter(rules, n - 1));
    OtherRulesTwice(rules);
    Cycle(size, prev, RulesAfter(rules, n - 1))
  }

  /** One more cycle. */
  lemma CyclesStep(size: nat, st: St, rules: seq<Rule>, n: nat, prev: St, rl: seq<Rule>, next: St)
    requires WellFormed(size, st) && RulesShaped(size, st, rules)
    requires prev == Cycles(size, st, rules, n) && rl == RulesAfter(rules, n)
    requires WellFormed(size, prev) && RulesShaped(size, prev, rl)
    requires next == Cycle(size, prev, rl)
    ensures next == Cycles(size, st, rules, n + 1)
    ensures OtherRules(rl) == RulesAfter(rules, n + 1)
  {
    assert Cycles(size, st, rules, n + 1) == NthCycle(size, st, rules, n + 1);
    OtherRulesTwice(rules);
  }

  // -----------------------------------------------------------------------
  // Candidates only shrink from cycle to cycle
  // -----------------------------------------------------------------------

  /** Every cage of the assignment table is the cage of one of the rules. */
  ghost predicate CagesOfRules(st: St, rules: seq<Rule>) {
    forall K :: K in st.solve ==> exists r :: r in rules && r.cells == K
  }

  /**
   * The tables of a puzzle before its first cycle: every cage is a rule's,
   * every EQUALS target is a candidate of its cell, and two EQUALS rules
   * on one line have different targets (as in a Latin square).
   */
  ghost predicate FreshTables(st: St, rules: seq<Rule>) {
    && CagesOfRules(st, rules)
    && SinglesApart(EqualsRules(rules))
    && TargetsAllowed(st.poss, EqualsRules(rules))
  }

  /** Tables a cycle can start from without any candidate list growing:
      fresh ones, or consistent ones once no EQUALS rule is left. */
  ghost predicate CycleReady(st: St, rules: seq<Rule>) {
    || FreshTables(st, rules)
    || (EqualsRules(rules) == [] && Shaped(st) && Consistent(st))
  }

  /** Every cage is consistent, or will be pared by one of the rules. */
  ghost predicate ReadyToPare(st: St, rules: seq<Rule>)
    requires Shaped(st)
  {
    forall K :: K in st.solve ==> ConsistentAt(st, K) || exists r :: r in rules && r.cells == K
  }

  /** `pareValues` on tables whose every cage is consistent or pared by
      one of the rules leaves them consistent, and no candidate list grows. */
  lemma PareConsistent(size: nat, s1: St, rules: seq<Rule>)
    requires WellFormed(size, s1) && RulesShaped(size, s1, rules) && FirstEquals(rules) == |rules|
    requires ReadyToPare(s1, rules)
    ensures WellFormed(size, PareUpTo(size, s1, rules)) && Consistent(PareUpTo(size, s1, rules))
    ensures Shrinks(s1.poss, PareUpTo(size, s1, rules).poss)
  {
    PrefixParable(size, s1, rules, |rules|);
    assert rules[..|rules|] == rules;
    var s2 := PareUpTo(size, s1, rules);
    assert s2 == PareAll(size, s1, rules);
    PareAllConsistent(size, s1, rules);
    PareAllWellFormed(size, s1, rules);
  }

  /** After `cleanSingles` on ready tables, every cage is consistent or
      pared by one of the rules left. */
  lemma CleanedReady(size: nat, st: St, rules: seq<Rule>)
    requires WellFormed(size, st) && RulesShaped(size, st, rules) && CycleReady(st, rules)
    ensures forall r :: r in EqualsRules(rules) ==> |r.cells| >= 1
    ensures WellFormed(size, Reductions.CleanSingles(st, EqualsRules(rules)))
    ensures Shrinks(st.poss, Reductions.CleanSingles(st, EqualsRules(rules)).poss)
    ensures ReadyToPare(Reductions.CleanSingles(st, EqualsRules(rules)), OtherRules(rules))
  {
    var eqs := EqualsRules(rules);
    assert SinglesInTable(size, st, eqs);
    if FreshTables(st, rules) {
      CleanSinglesConsistent(size, st, eqs);
      var s1 := Reductions.CleanSingles(st, eqs);
      forall K | K in s1.solve ensures ConsistentAt(s1, K) || exists r :: r in OtherRules(rules) && r.cells == K {
        var r :| r in rules && r.cells == K;
        if r.op == EQUALS {
          assert r in eqs;
        } else {
          assert r in OtherRules(rules);
        }
      }
    } else {
      assert Reductions.CleanSingles(st, eqs) == st;
    }
  }

  /** Tables st are consistent, and no candidate list grew from `before`. */
  ghost predicate ShrunkFrom(before: Poss, st: St) {
    Shaped(st) && Consistent(st) && Shrinks(before, st.poss)
  }

  /** A cycle from ready tables leaves them consistent, and no candidate
      list grows. */
  lemma CycleShrinks(size: nat, st: St, rules: seq<Rule>)
    requires WellFormed(size, st) && RulesShaped(size, st, rules) && CycleReady(st, rules)
    ensures WellFormed(size, Cycle(size, st, rules)) && ShrunkFrom(st.poss, Cycle(size, st, rules))
  {
    CleanSinglesValid(size, st, rules);
    CleanedReady(size, st, rules);
    var s1 := Reductions.CleanSingles(st, EqualsRules(rules));
    OtherRulesTwice(rules);
    PareConsistent(size, s1, OtherRules(rules));
    var s2 := PareUpTo(size, s1, OtherRules(rules));
    SubGroupsInvariant(size, s2);
    var s3 := Reductions.SubGroups(size, s2);
    var D := NecessaryDrops(MasterOf(s3), size);
    ApplyDropsInvariant(size, s3, D);
    var s4 := ApplyDrops(s3, D);
    CycleIs(size, st, rules, s1, s2, s3, s4);
    ShrinksTrans(st.poss, s1.poss, s2.poss);
    ShrinksTrans(st.poss, s2.poss, s3.poss);
    ShrinksTrans(st.poss, s3.poss, s4.poss);
  }

  /**
   * From fresh tables, every cycle of `solveKenKen` leaves the tables
   * consistent, and no candidate list ever grows: neither over one cycle
   * nor from the start.
   */
  lemma {:induction false} CyclesShrink(size: nat, st: St, rules: seq<Rule>, n: nat)
    requires WellFormed(size, st) && RulesShaped(size, st, rules) && FreshTables(st, rules)
    ensures Consistent(Cycles(size, st, rules, n + 1))
    ensures Shrinks(Cycles(size, st, rules, n).poss, Cycles(size, st, rules, n + 1).poss)
    ensures Shrinks(st.poss, Cycles(size, st, rules, n + 1).poss)
  {
    var prev := Cycles(size, st, rules, n);
    var rl := RulesAfter(rules, n);
    if n > 0 {
      CyclesShrink(size, st, rules, n - 1);
      OtherRulesTwice(rules);
      assert CycleReady(prev, rl);
    }
    CycleShrinks(size, prev, rl);
    CyclesStep(size, st, rules, n, prev, rl, Cycle(size, prev, rl));
    if n > 0 {
      ShrinksTrans(st.poss, prev.poss, Cycles(size, st, rules, n + 1).poss);
    }
  }

  /** After one cycle or more from fresh tables, the tables are consistent
      and no candidate list is longer than at the start. */
  lemma ShrunkAfter(size: nat, st: St, rules: seq<Rule>, n: nat)
    requires WellFormed(size, st) && RulesShaped(size, st, rules) && FreshTables(st, rules) && 0 < n
    ensures Consistent(Cycles(size, st, rules, n)) && Shrinks(st.poss, Cycles(size, st, rules, n).poss)
  {
    CyclesShrink(size, st, rules, n - 1);
  }

  /** The answers to "Exit? [y/n]" that end the loop of `solveKenKen`. */
  predicate Stops(reply: string) {
    reply == "y" || reply == ""
  }

  /**
   * The loop of `solveKenKen` from tables st and rules, with the answers
   * `replies` and at most `fuel` cycles, leaves after exactly `cycles`
   * cycles: it went on after every earlier one, and leaves now because the
   * puzzle is solved, a stalled cycle was answered "y" or "" (no answer
   * left reads as ""), or the bound is hit.
   */
  ghost predicate Exits(size: nat, st: St, rules: seq<Rule>, fuel: nat, replies: seq<string>, cycles: nat)
    requires WellFormed(size, st) && RulesShaped(size, st, rules)
  {
    && cycles <= fuel && GoesOn(size, st, rules, replies, cycles)
    && (AllSingle(Cycles(size, st, rules, cycles).poss) || StopsAfter(size, st, rules, replies, cycles) || cycles == fuel)
  }

  /** The loop leaves after one number of cycles only. */
  lemma ExitUnique(size: nat, st: St, rules: seq<Rule>, fuel: nat, replies: seq<string>, c1: nat, c2: nat)
    requires WellFormed(size, st) && RulesShaped(size, st, rules)
    requires Exits(size, st, rules, fuel, replies, c1) && Exits(size, st, rules, fuel, replies, c2)
    ensures c1 == c2
  {
  }

  /**
   * The numbers shown after `updatePossDic(poss)`: the cells poss holds
   * down to one candidate show that candidate, the other shown cells keep
   * their number.
   */
  ghost predicate Shows(before: map<Cell, int>, after: map<Cell, int>, poss: Poss) {
    && after.Keys == before.Keys + set c | c in poss && |poss[c]| == 1
    && forall c :: c in after ==>
         if c in poss && |poss[c]| == 1 then after[c] == poss[c][0] else c in before && after[c] == before[c]
  }

  /** The reply read at position q of `replies`; none left reads as "". */
  function ReplyAt(replies: seq<string>, q: nat): (r: string)
    ensures q < |replies| ==> r == replies[q]
    ensures q >= |replies| ==> Stops(r)
  {
    if q < |replies| then replies[q] else ""
  }

  /** The k-th cycle (k >= 1) left the total number of assignments as it was. */
  ghost predicate StalledAt(size: nat, st: St, rules: seq<Rule>, k: nat)
    requires WellFormed(size, st) && RulesShaped(size, st, rules)
  {
    0 < k && Total(Cycles(size, st, rules, k).solve) == Total(Cycles(size, st, rules, k - 1).solve)
  }

  /** How many of the first k cycles stalled: the replies read after them. */
  ghost function StallCount(size: nat, st: St, rules: seq<Rule>, k: nat): (r: nat)
    requires WellFormed(size, st) && RulesShaped(size, st, rules)
    ensures r <= k
    ensures StalledAt(size, st, rules, k) ==> 0 < r
  {
    if k == 0 then 0
    else StallCount(size, st, rules, k - 1) + if StalledAt(size, st, rules, k) then 1 else 0
  }

  /** The loop leaves after the k-th cycle on a reply: the cycle stalled,
      and the reply read then, the StallCount(k)-th, is "y" or "". */
  ghost predicate StopsAfter(size: nat, st: St, rules: seq<Rule>, replies: seq<string>, k: nat)
    requires WellFormed(size, st) && RulesShaped(size, st, rules)
  {
    StalledAt(size, st, rules, k) && Stops(ReplyAt(replies, StallCount(size, st, rules, k) - 1))
  }

  /** One cycle more: it stalled when it left the total as it was, and
      then the reply it reads is the one after those read so far. */
  lemma StallStep(size: nat, st: St, rules: seq<Rule>, replies: seq<string>, k: nat)
    requires WellFormed(size, st) && RulesShaped(size, st, rules)
    ensures StalledAt(size, st, rules, k + 1) <==>
      Total(Cycles(size, st, rules, k + 1).solve) == Total(Cycles(size, st, rules, k).solve)
    ensures StallCount(size, st, rules, k + 1) ==
      StallCount(size, st, rules, k) + if StalledAt(size, st, rules, k + 1) then 1 else 0
    ensures StopsAfter(size, st, rules, replies, k + 1) <==>
      StalledAt(size, st, rules, k + 1) && Stops(ReplyAt(replies, StallCount(size, st, rules, k)))
  {
    assert k + 1 - 1 == k;
  }

  /** After each of the first `cycles` cycles the loop went on: some cell
      had other than one candidate, and no reply said stop. */
  ghost predicate GoesOn(size: nat, st: St, rules: seq<Rule>, replies: seq<string>, cycles: nat)
    requires WellFormed(size, st) && RulesShaped(size, st, rules)
  {
    forall m :: 0 <= m < cycles ==>
      !AllSingle(Cycles(size, st, rules, m).poss) && !StopsAfter(size, st, rules, replies, m)
  }

  class KenKenSolver {
    var k: KenKen
    var size: int
    var ruleList: seq<Rule>
    var possDic: Poss
    var solveDic: Solve
    var solved: bool

    /** The two tables as a value. */
    function State(): St
      reads this
    {
      St(possDic, solveDic)
    }

    /** The tables are well formed and the rules fit them. */
    ghost predicate Valid()
      reads this
    {
      0 <= size && WellFormed(size, State()) && RulesShaped(size, State(), ruleList)
    }

    /** A solver on puzzle k, with its own copies of k's rules and tables. */
    constructor (k: KenKen)
      requires 0 <= k.size
      requires WellFormed(k.size, St(k.possDic, k.solveDic))
      requires RulesShaped(k.size, St(k.possDic, k.solveDic), k.ruleList)
      ensures this.k == k && size == k.size && ruleList == k.ruleList
      ensures possDic == k.possDic && solveDic == k.solveDic && !solved
      ensures Valid()
    {
      this.k := k;
      size := k.size;
      ruleList := k.ruleList;
      possDic := k.possDic;
      solveDic := k.solveDic;
      solved := false;
    }

    /**
     * `updateSolveAndPoss(S, nodes)`: the cage gets the tuples S, and each
     * of its cells the sorted distinct values its position takes in S.
     */
    method UpdateSolveAndPoss(S: seq<seq<int>>, nodes: seq<Cell>)
      requires TuplesFit(nodes, S)
      modifies this`possDic, this`solveDic
      ensures State() == UpdateCage(old(State()), nodes, S)
    {
      ghost var p0 := possDic;
      ghost var V := CageCandidates(nodes, S);
      solveDic := solveDic[nodes := S];
      var i := 0;
      while i < |nodes|
        invariant 0 <= i <= |nodes|
        invariant solveDic == old(solveDic)[nodes := S]
        invariant possDic == Assign(p0, nodes, V, i)
      {
        var z := PositionCandidates(S, i);
        assert Assign(p0, nodes, V, i + 1) == Assign(p0, nodes, V, i)[nodes[i] := z];
        possDic := possDic[nodes[i] := z];
        i := i + 1;
      }
    }

    /**
     * One rule of `pareValues`: the fitting orderings of every allowed
     * combination, flattened and without repeats, become the rule's
     * assignments.
     */
    method PareOne(rule: Rule)
      requires Enumerable(rule) && OnBoard(size, possDic, rule.cells)
      modifies this`possDic, this`solveDic
      ensures State() == PareRule(size, old(State()), rule)
    {
      var parts := PareParts(size, possDic, rule);
      var temp := FlattenLists(parts);
      LexLessOrder();
      var solveSet := RemoveDuplicates(temp, LexLess);
      UpdateSolveAndPoss(solveSet, rule.cells);
    }

    /**
     * `pareValues`: every rule in turn is pared. An EQUALS rule still in
     * the list stops the pass with an error, as the source's ValueError
     * does, after the rules before it were pared.
     */
    method PareValues() returns (err: bool)
      requires Valid()
      modifies this`possDic, this`solveDic
      ensures Valid()
      ensures err == (FirstEquals(ruleList) < |ruleList|)
      ensures State() == PareUpTo(size, old(State()), ruleList)
    {
      ghost var st0 := State();
      var q := 0;
      err := false;
      PrefixParable(size, st0, ruleList, 0);
      while q < |ruleList|
        invariant 0 <= q <= FirstEquals(ruleList) && !err
        invariant ParableRules(size, ruleList[..q])
        invariant State() == PareAll(size, st0, ruleList[..q])
      {
        var rule := ruleList[q];
        if PossibleValues(size, rule.op, rule.target, |rule.cells|).None? {
          err := true;
          break;
        }
        PareAllStep(size, st0, ruleList, q);
        PareOne(rule);
        q := q + 1;
      }
      PareUpToValid(size, st0, ruleList);
    }

    /**
     * `setNodeEqual(node, val)`: the node's candidates become [val], and
     * val leaves the lists of the cells sharing either coordinate, the
     * other coordinate running over 0..8.
     */
    method SetNodeEqual(node: Cell, val: int)
      modifies this`possDic
      ensures possDic == SetEqual(old(possDic), node, val)
    {
      ghost var p0 := possDic;
      var i, j := node.0, node.1;
      possDic := possDic[node := [val]];
      var a := 0;
      while a < STRIKE_SPAN
        invariant 0 <= a <= STRIKE_SPAN
        invariant possDic == StrikeUpTo(p0[node := [val]], node, val, a)
      {
        ghost var p := possDic;
        if a != j && (i, a) in possDic {
          possDic := possDic[(i, a) := RemoveFirst(possDic[(i, a)], val)];
        }
        if a != i && (a, j) in possDic {
          possDic := possDic[(a, j) := RemoveFirst(possDic[(a, j)], val)];
        }
        assert possDic == StrikeStep(p, node, val, a);
        a := a + 1;
      }
      StrikeDone(p0, node, val);
    }

    /** The body of `cleanSingles`'s loop for one EQUALS rule, on the tables. */
    method FixSingleCell(rule: Rule)
      requires |rule.cells| >= 1
      modifies this`possDic, this`solveDic
      ensures State() == FixSingle(old(State()), rule)
    {
      SetNodeEqual(rule.cells[0], rule.target);
      solveDic := solveDic[rule.cells := [[rule.target]]];
    }

    /**
     * `cleanSingles`: every EQUALS rule leaves the rule list; its cell is
     * fixed to the target, struck from the cell's lines, and its cage gets
     * the single assignment (target,).
     */
    method CleanSingles()
      requires Valid()
      modifies this`possDic, this`solveDic, this`ruleList
      ensures ruleList == OtherRules(old(ruleList))
      ensures Valid()
      ensures State() == Reductions.CleanSingles(old(State()), EqualsRules(old(ruleList)))
    {
      ghost var st0 := State();
      ghost var rules0 := ruleList;
      var equalsRules := EqualsRules(ruleList);
      assert SinglesInTable(size, st0, equalsRules);
      var q := 0;
      while q < |equalsRules|
        invariant 0 <= q <= |equalsRules|
        invariant EqualsRules(ruleList) == equalsRules[q..]
        invariant OtherRules(ruleList) == OtherRules(rules0)
        invariant State() == Reductions.CleanSingles(st0, equalsRules[..q])
      {
        CleanOne(st0, equalsRules, q);
        q := q + 1;
      }
      CleanSinglesDone(st0, rules0, equalsRules);
    }

    /** One round of `cleanSingles`'s loop: the next EQUALS rule leaves the
        list and its cell is fixed. */
    method CleanOne(ghost st0: St, eqs: seq<Rule>, q: nat)
      requires q < |eqs| && forall r :: r in eqs ==> |r.cells| >= 1
      requires EqualsRules(ruleList) == eqs[q..]
      requires State() == Reductions.CleanSingles(st0, eqs[..q])
      modifies this`possDic, this`solveDic, this`ruleList
      ensures EqualsRules(ruleList) == eqs[q + 1..]
      ensures OtherRules(ruleList) == OtherRules(old(ruleList))
      ensures State() == Reductions.CleanSingles(st0, eqs[..q + 1])
    {
      var rule := eqs[q];
      RemoveFirstEquals(ruleList, rule);
      ruleList := RemoveFirst(ruleList, rule);
      CleanSinglesSnoc(st0, eqs, q);
      FixSingleCell(rule);
    }

    /** What `cleanSingles` leaves once every EQUALS rule is handled. */
    lemma CleanSinglesDone(st0: St, rules0: seq<Rule>, eqs: seq<Rule>)
      requires 0 <= size && WellFormed(size, st0) && RulesShaped(size, st0, rules0)
      requires eqs == EqualsRules(rules0) && SinglesInTable(size, st0, eqs)
      requires EqualsRules(ruleList) == eqs[|eqs|..] && OtherRules(ruleList) == OtherRules(rules0)
      requires State() == Reductions.CleanSingles(st0, eqs[..|eqs|])
      ensures ruleList == OtherRules(rules0) && Valid()
      ensures State() == Reductions.CleanSingles(st0, eqs)
    {
      NoEqualsOther(ruleList);
      assert eqs[..|eqs|] == eqs;
      CleanSinglesWellFormed(size, st0, eqs);
      RulesShapedSameKeys(size, st0, State(), rules0, ruleList);
    }

    /**
     * The inner loop of `dropValsFromNodesRow` for one value and one cell:
     * the first cage found holding the cell keeps the tuples that do not
     * put the value there, and its cells are re-derived.
     */
    method DropFromCage(val: int, node: Cell)
      requires WellFormed(size, State())
      modifies this`possDic, this`solveDic
      ensures State() == ApplyDrops(old(State()), ValDrops(val, [node]))
    {
      ghost var st0 := State();
      assert ValDrops(val, [node]) == {(val, node)};
      var keys := solveDic.Keys;
      while keys != {}
        invariant keys <= st0.solve.Keys
        invariant State() == st0
        invariant forall K :: K in st0.solve && K !in keys ==> node !in K
        decreases keys
      {
        var nodeList :| nodeList in keys;
        if node in nodeList {
          var nodeIndex := IndexOf(nodeList, node);
          var solveSet := TuplesWithout(solveDic[nodeList], nodeIndex, val);
          DropOneInCage(st0, nodeList, val, node);
          UpdateSolveAndPoss(solveSet, nodeList);
          return;
        }
        keys := keys - {nodeList};
      }
      DropOneNowhere(st0, val, node);
    }

    /** One round of the inner loop of `dropValsFromNodesRow`. */
    method DropAt(val: int, nodes: seq<Cell>, q: nat, ghost st0: St)
      requires WellFormed(size, st0) && q < |nodes|
      requires State() == ApplyDrops(st0, DropsUpTo(val, nodes, q))
      modifies this`possDic, this`solveDic
      ensures State() == ApplyDrops(st0, DropsUpTo(val, nodes, q + 1))
    {
      DropNodeStep(size, st0, val, nodes, q, State());
      DropFromCage(val, nodes[q]);
    }

    /** The inner loop of `dropValsFromNodesRow`: one value leaves every cell of nodes. */
    method DropValFromNodes(val: int, nodes: seq<Cell>, ghost st0: St)
      requires WellFormed(size, st0) && State() == st0
      modifies this`possDic, this`solveDic
      ensures State() == ApplyDrops(st0, ValDrops(val, nodes))
    {
      DropsFromNone(st0, val, nodes);
      var q := 0;
      while q < |nodes|
        invariant 0 <= q <= |nodes| && WellFormed(size, st0)
        invariant State() == ApplyDrops(st0, DropsUpTo(val, nodes, q))
      {
        DropAt(val, nodes, q, st0);
        q := q + 1;
      }
      DropsFromAll(st0, val, nodes);
    }

    /**
     * `dropValsFromNodesRow(dropVals, dropNodes)`: every value of dropVals
     * is dropped from every cell of dropNodes, through the cage holding
     * the cell.
     */
    method DropValsFromNodesRow(dropVals: seq<int>, dropNodes: seq<Cell>)
      requires WellFormed(size, State())
      modifies this`possDic, this`solveDic
      ensures State() == ApplyDrops(old(State()), DropSet(dropVals, dropNodes))
    {
      ghost var st0 := State();
      assert DropSet(dropVals[..0], dropNodes) == {};
      ApplyNoDrops(st0);
      var p := 0;
      while p < |dropVals|
        invariant 0 <= p <= |dropVals|
        invariant State() == ApplyDrops(st0, DropSet(dropVals[..p], dropNodes))
      {
        DropValStep(size, st0, dropVals, dropNodes, p, State());
        DropValFromNodes(dropVals[p], dropNodes, State());
        p := p + 1;
      }
      assert dropVals[..p] == dropVals;
    }
    /**
     * The loop body of `reduceRow` / `reduceColumn` for one subset `sub`
     * of i cells of line L: when the subset's cells allow exactly i
     * values, those values leave the line's other cells.
     */
    method ReduceSubset(L: seq<Cell>, sub: seq<Cell>, i: nat, ghost st0: St, ghost tasks: seq<Task>)
      requires |sub| == i && Shaped(st0)
      requires State() == Reduce(st0, tasks) && WellFormed(size, State())
      modifies this`possDic, this`solveDic
      ensures State() == Reduce(st0, tasks + [(L, sub)]) && WellFormed(size, State())
    {
      ReduceStep(st0, tasks, L, sub);
      var allowedVals := AllowedValues(possDic, sub);
      if |allowedVals| == i {
        var dropNodes := Outside(L, sub);
        ApplyDropsWellFormed(size, State(), DropSet(allowedVals, dropNodes));
        DropValsFromNodesRow(allowedVals, dropNodes);
      }
    }

    /** One round of the outer loop of `reduceRow`: the subsets of line L with i cells. */
    method ReduceSubsetsOfSize(L: seq<Cell>, i: nat, ghost st0: St)
      requires 2 <= i && Shaped(st0)
      requires WellFormed(size, State()) && State() == Reduce(st0, TasksFor(L, LineSubsets(L, 2, i)))
      modifies this`possDic, this`solveDic
      ensures WellFormed(size, State()) && State() == Reduce(st0, TasksFor(L, LineSubsets(L, 2, i + 1)))
    {
      ghost var n := size;
      var combos := Combinations(L, i);
      CombinationsSized(L, i);
      assert LineSubsets(L, 2, i) + combos[..0] == LineSubsets(L, 2, i);
      ReduceSubsets(L, combos, i, n, st0, LineSubsets(L, 2, i));
      LineSubsetsNext(L, i);
    }

    /** The tables of an n-by-n solver are those left by the tests of
        line L for the subsets subs, run from tables st0. */
    ghost predicate ReducedBy(n: int, st0: St, L: seq<Cell>, subs: seq<seq<Cell>>)
      reads this
    {
      size == n && Shaped(st0) && WellFormed(n, State()) && State() == Reduce(st0, TasksFor(L, subs))
    }

    /** The `for` loop over the subsets subs, all of i cells, after the subsets done. */
    method ReduceSubsets(L: seq<Cell>, subs: seq<seq<Cell>>, i: nat, ghost n: int, ghost st0: St, ghost done: seq<seq<Cell>>)
      requires forall k :: 0 <= k < |subs| ==> |subs[k]| == i
      requires ReducedBy(n, st0, L, done + subs[..0])
      modifies this`possDic, this`solveDic
      ensures ReducedBy(n, st0, L, done + subs[..|subs|])
    {
      var q := 0;
      while q < |subs|
        invariant 0 <= q <= |subs|
        invariant ReducedBy(n, st0, L, done + subs[..q])
      {
        ReduceNth(L, subs, i, q, n, st0, done);
        q := q + 1;
      }
    }

    /** The q-th round of the `for` loop over the subsets subs. */
    method ReduceNth(L: seq<Cell>, subs: seq<seq<Cell>>, i: nat, q: nat, ghost n: int, ghost st0: St, ghost done: seq<seq<Cell>>)
      requires q < |subs| && |subs[q]| == i
      requires ReducedBy(n, st0, L, done + subs[..q])
      modifies this`possDic, this`solveDic
      ensures ReducedBy(n, st0, L, done + subs[..q + 1])
    {
      TasksForSnoc(L, done, subs, q);
      ReduceSubset(L, subs[q], i, st0, TasksFor(L, done + subs[..q]));
    }

    /**
     * `reduceRow` / `reduceColumn` on line L: every subset of the line
     * with 2..size-1 cells, smallest first and each size in
     * `itertools.combinations` order, is checked in turn.
     */
    method ReduceLine(L: seq<Cell>)
      requires WellFormed(size, State())
      modifies this`possDic, this`solveDic
      ensures WellFormed(size, State())
      ensures State() == Reduce(old(State()), LineTasks(if size < 0 then 0 else size, L))
    {
      ghost var st0 := State();
      var l := size;
      var i := 2;
      while i < l
        invariant 2 <= i && (l >= 2 ==> i <= l) && (l < 2 ==> i == 2)
        invariant WellFormed(size, State())
        invariant State() == Reduce(st0, TasksFor(L, LineSubsets(L, 2, i)))
      {
        ReduceSubsetsOfSize(L, i, st0);
        i := i + 1;
      }
      if size < 2 {
        LineSubsetsNone(L, i);
        LineSubsetsNone(L, if size < 0 then 0 else size);
      }
    }

    /** `reduceRow(rowIndex)`: the line of cells (i, rowIndex). */
    method ReduceRow(rowIndex: int)
      requires WellFormed(size, State()) && 0 <= rowIndex < size
      modifies this`possDic, this`solveDic
      ensures WellFormed(size, State())
      ensures State() == Reduce(old(State()), LineTasks(size, RowCells(size, rowIndex)))
    {
      var rowNodeList := RowCells(size, rowIndex);
      ReduceLine(rowNodeList);
    }

    /** `reduceColumn(columnIndex)`: the line of cells (columnIndex, i). */
    method ReduceColumn(columnIndex: int)
      requires WellFormed(size, State()) && 0 <= columnIndex < size
      modifies this`possDic, this`solveDic
      ensures WellFormed(size, State())
      ensures State() == Reduce(old(State()), LineTasks(size, ColumnCells(size, columnIndex)))
    {
      var colNodeList := ColumnCells(size, columnIndex);
      ReduceLine(colNodeList);
    }

    /**
     * `subGroups`: row i and then column i are reduced, for every i in
     * 0..size-1. (The pass over the rules does nothing: its only
     * statement is commented out.)
     */
    method SubGroups()
      requires WellFormed(size, State()) && 0 <= size
      modifies this`possDic, this`solveDic
      ensures WellFormed(size, State())
      ensures State() == Reductions.SubGroups(size, old(State()))
    {
      ghost var st0 := State();
      var i := 0;
      while i < size
        invariant 0 <= i <= size
        invariant WellFormed(size, State())
        invariant State() == Reduce(st0, SubGroupTasks(size, i))
      {
        SubGroupsRound(i, st0);
        i := i + 1;
      }
    }

    /** One round of `subGroups`' loop: row i, then column i. */
    method SubGroupsRound(i: int, ghost st0: St)
      requires 0 <= i < size && Shaped(st0)
      requires WellFormed(size, State()) && State() == Reduce(st0, SubGroupTasks(size, i))
      modifies this`possDic, this`solveDic
      ensures WellFormed(size, State()) && State() == Reduce(st0, SubGroupTasks(size, i + 1))
    {
      ghost var A := SubGroupTasks(size, i);
      ReduceRow(i);
      ReduceAppend(st0, A, LineTasks(size, RowCells(size, i)));
      ReduceColumn(i);
      SubGroupsStep(size, st0, i);
    }

    /**
     * The innermost loop of `necessaryRuleValues`: intVal leaves the
     * cells of line coord of the axis that lie outside the cages ruleList.
     */
    method NecessaryLine(intVal: int, axis: int, coord: int, ruleList: set<seq<Cell>>, ghost st0: St, ghost D0: set<Drop>)
      requires 0 <= size && WellFormed(size, st0) && State() == ApplyDrops(st0, D0)
      modifies this`possDic, this`solveDic
      ensures State() == ApplyDrops(st0, D0 + LineDrops(intVal, axis, coord, ruleList, size))
    {
      var dropNodes := LineDropNodes(size, axis, coord, ruleList);
      DropsMore(size, st0, D0, DropSet([intVal], dropNodes));
      DropValsFromNodesRow([intVal], dropNodes);
    }

    /** The `for coord in coordSet` loop: intVal leaves the cells of every
        line of coordSet outside the cages ruleList. */
    method NecessaryLines(intVal: int, axis: int, coordSet: seq<int>, ruleList: set<seq<Cell>>, ghost st0: St, ghost D0: set<Drop>)
      requires 0 <= size && WellFormed(size, st0) && State() == ApplyDrops(st0, D0)
      modifies this`possDic, this`solveDic
      ensures State() == ApplyDrops(st0, D0 + LinesDrops(intVal, axis, Elems(coordSet), ruleList, size))
    {
      LinesNone(intVal, axis, ruleList, size);
      assert Elems(coordSet[..0]) == {};
      assert D0 + {} == D0;
      var q := 0;
      while q < |coordSet|
        invariant 0 <= q <= |coordSet|
        invariant State() == ApplyDrops(st0, D0 + LinesDrops(intVal, axis, Elems(coordSet[..q]), ruleList, size))
      {
        ghost var done := Elems(coordSet[..q]);
        assert Elems(coordSet[..q + 1]) == done + {coordSet[q]} by {
          assert coordSet[..q + 1] == coordSet[..q] + [coordSet[q]];
        }
        LinesStep(intVal, axis, done, coordSet[q], ruleList, size);
        UnionAssoc(D0, LinesDrops(intVal, axis, done, ruleList, size), LineDrops(intVal, axis, coordSet[q], ruleList, size));
        NecessaryLine(intVal, axis, coordSet[q], ruleList, st0, D0 + LinesDrops(intVal, axis, done, ruleList, size));
        q := q + 1;
      }
      assert coordSet[..q] == coordSet;
    }

    /**
     * One group of keys of `necessaryRuleValues`: when its cage lists
     * hold as many cages as its keys name lines, intVal leaves every cell
     * of those lines outside those cages.
     */
    method NecessaryGroup(masterDic: Master, intVal: int, axis: int, indexSetGroup: seq<set<int>>, ghost st0: St, ghost D0: set<Drop>)
      requires 0 <= size && WellFormed(size, st0) && State() == ApplyDrops(st0, D0)
      modifies this`possDic, this`solveDic
      ensures State() == ApplyDrops(st0, D0 + GroupDrops(masterDic, size, intVal, axis, indexSetGroup))
    {
      var coordSet := ReduceIndices(indexSetGroup);
      var ruleCount, ruleList := GroupRules(masterDic, intVal, axis, indexSetGroup);
      if |coordSet| == ruleCount {
        NecessaryLines(intVal, axis, coordSet, ruleList, st0, D0);
      } else {
        assert D0 + {} == D0;
      }
    }

    /** One group of the round: the drops of combos[q] after those of the
        groups before it. */
    method NecessaryCombo(masterDic: Master, intVal: int, axis: int, combos: seq<seq<set<int>>>, q: nat, ghost st0: St, ghost D1: set<Drop>)
      requires 0 <= size && WellFormed(size, st0) && q < |combos|
      requires State() == ApplyDrops(st0, D1 + CombosDrops(GroupOf(masterDic, size, intVal, axis), combos[..q]))
      modifies this`possDic, this`solveDic
      ensures State() == ApplyDrops(st0, D1 + CombosDrops(GroupOf(masterDic, size, intVal, axis), combos[..q + 1]))
    {
      ghost var f := GroupOf(masterDic, size, intVal, axis);
      CombosStep(D1, f, combos, q);
      assert f(combos[q]) == GroupDrops(masterDic, size, intVal, axis, combos[q]);
      NecessaryGroup(masterDic, intVal, axis, combos[q], st0, D1 + CombosDrops(f, combos[..q]));
    }

    /** Round j of `for j in range(1, self.size)`: the groups of j keys of
        coordKeys, in `itertools.combinations` order, after the smaller
        groups. */
    method NecessaryLevel(masterDic: Master, intVal: int, axis: int, coordKeys: seq<set<int>>, j: nat, ghost st0: St, ghost D0: set<Drop>)
      requires 0 <= size && 1 <= j && WellFormed(size, st0)
      requires State() == ApplyDrops(st0, D0 + LevelsDrops(GroupOf(masterDic, size, intVal, axis), coordKeys, j))
      modifies this`possDic, this`solveDic
      ensures State() == ApplyDrops(st0, D0 + LevelsDrops(GroupOf(masterDic, size, intVal, axis), coordKeys, j + 1))
    {
      ghost var f := GroupOf(masterDic, size, intVal, axis);
      ghost var D1 := D0 + LevelsDrops(f, coordKeys, j);
      var combos := Combinations(coordKeys, j);
      CombosStart(D1, f, combos);
      var q := 0;
      while q < |combos|
        invariant 0 <= q <= |combos| && 0 <= size
        invariant State() == ApplyDrops(st0, D1 + CombosDrops(f, combos[..q]))
      {
        NecessaryCombo(masterDic, intVal, axis, combos, q, st0, D1);
        q := q + 1;
      }
      LevelsStep(D0, f, coordKeys, j, combos);
    }

    /** `for j in range(1, self.size)`: the groups of 1 .. size - 1 keys
        of coordKeys, smallest first. */
    method NecessaryLevels(masterDic: Master, intVal: int, axis: int, coordKeys: seq<set<int>>, ghost st0: St, ghost D0: set<Drop>)
      requires 0 <= size && WellFormed(size, st0) && State() == ApplyDrops(st0, D0)
      modifies this`possDic, this`solveDic
      ensures State() == ApplyDrops(st0, D0 + LevelsDrops(GroupOf(masterDic, size, intVal, axis), coordKeys, size))
    {
      ghost var f := GroupOf(masterDic, size, intVal, axis);
      var n: nat := size;
      LevelsNone(f, coordKeys, 1);
      assert D0 + {} == D0;
      if n < 1 {
        LevelsNone(f, coordKeys, n);
        return;
      }
      var j: nat := 1;
      while j < n
        invariant size == n && 1 <= j <= n
        invariant State() == ApplyDrops(st0, D0 + LevelsDrops(f, coordKeys, j))
      {
        NecessaryLevel(masterDic, intVal, axis, coordKeys, j, st0, D0);
        j := j + 1;
      }
      assert j == n;
      assert State() == ApplyDrops(st0, D0 + LevelsDrops(f, coordKeys, n));
      assert f == GroupOf(masterDic, size, intVal, axis);
    }

    /**
     * `for (i, coordDic) in enumerate(masterDic[intVal])`, one round: the
     * groups of 1 .. size - 1 keys of intVal on the axis.
     */
    method NecessaryAxis(masterDic: Master, intVal: int, axis: int, ghost st0: St, ghost D0: set<Drop>)
      requires 0 <= size && WellFormed(size, st0) && Describes(masterDic, st0) && State() == ApplyDrops(st0, D0)
      modifies this`possDic, this`solveDic
      ensures State() == ApplyDrops(st0, D0 + AxisDrops(masterDic, size, intVal, axis))
    {
      var coordKeys := CoordKeys(masterDic, intVal, axis);
      AxisDropsOrder(masterDic, st0, size, intVal, axis, coordKeys);
      NecessaryLevels(masterDic, intVal, axis, coordKeys, st0, D0);
    }

    /** `for intVal in masterDic`, one round: the row keys, then the column keys. */
    method NecessaryValue(masterDic: Master, intVal: int, ghost st0: St, ghost D0: set<Drop>)
      requires 0 <= size && WellFormed(size, st0) && Describes(masterDic, st0) && State() == ApplyDrops(st0, D0)
      modifies this`possDic, this`solveDic
      ensures State() == ApplyDrops(st0, D0 + AxesDrops(AxisOf(masterDic, size), intVal, 2))
    {
      ghost var f := AxisOf(masterDic, size);
      AxesNone(f, intVal);
      assert D0 + {} == D0;
      var i := 0;
      while i < 2
        invariant 0 <= i <= 2
        invariant State() == ApplyDrops(st0, D0 + AxesDrops(f, intVal, i))
      {
        AxesStep(f, intVal, i);
        assert f(intVal, i) == AxisDrops(masterDic, size, intVal, i);
        UnionAssoc(D0, AxesDrops(f, intVal, i), f(intVal, i));
        NecessaryAxis(masterDic, intVal, i, st0, D0 + AxesDrops(f, intVal, i));
        i := i + 1;
      }
    }

    /** `for intVal in masterDic`: every value of the table in turn. */
    method NecessaryValues(masterDic: Master, values: set<int>, ghost st0: St)
      requires 0 <= size && WellFormed(size, st0) && Describes(masterDic, st0) && State() == st0
      modifies this`possDic, this`solveDic
      ensures State() == ApplyDrops(st0, ValuesDrops(AxisOf(masterDic, size), values))
    {
      ghost var f := AxisOf(masterDic, size);
      ghost var done: set<int> := {};
      ValuesNone(f);
      ApplyNoDrops(st0);
      var rest := values;
      while rest != {}
        invariant done + rest == values
        invariant State() == ApplyDrops(st0, ValuesDrops(f, done))
        decreases rest
      {
        SomeMember(rest);
        var intVal :| intVal in rest;
        ValuesStep(f, done, intVal);
        NecessaryValue(masterDic, intVal, st0, ValuesDrops(f, done));
        done, rest := done + {intVal}, rest - {intVal};
      }
      assert done == values;
    }

    /**
     * `necessaryRuleValues`: build `masterDic` from the tables, then, for
     * each value and axis, every group of keys whose cages are as many as
     * their lines drops the value from the rest of those lines.
     */
    method NecessaryRuleValues()
      requires 0 <= size && WellFormed(size, State())
      modifies this`possDic, this`solveDic
      ensures WellFormed(size, State())
      ensures possDic.Keys == old(possDic).Keys && solveDic.Keys == old(solveDic).Keys
      ensures State() == ApplyDrops(old(State()), NecessaryDrops(MasterOf(old(State())), size))
    {
      ghost var st0 := State();
      var masterDic := BuildMaster(possDic, solveDic);
      var values := set e | e in masterDic :: e.0;
      assert values == Values(masterDic);
      NecessaryValues(masterDic, values, st0);
      ApplyDropsWellFormed(size, st0, NecessaryDrops(masterDic, size));
    }

    /** `kenkenSolved`: the puzzle is solved when every cell has one candidate left. */
    method KenkenSolved()
      modifies this`solved
      ensures solved == AllSingle(possDic)
    {
      var keys := possDic.Keys;
      var result := true;
      while keys != {}
        invariant keys <= possDic.Keys
        invariant forall c :: c in possDic && c !in keys ==> |possDic[c]| == 1
        decreases keys
      {
        var node :| node in keys;
        if |possDic[node]| != 1 {
          result := false;
          break;
        }
        keys := keys - {node};
      }
      solved := result;
    }

    /** The sum of the lengths of the assignment lists, the measure of progress. */
    method TotalAssignments() returns (n: nat)
      ensures n == Total(solveDic)
    {
      var keys := solveDic.Keys;
      n := 0;
      while keys != {}
        invariant keys <= solveDic.Keys
        invariant n + TotalOf(solveDic, keys) == Total(solveDic)
        decreases keys
      {
        var key :| key in keys;
        TotalOfRemove(solveDic, keys, key);
        n := n + |solveDic[key]|;
        keys := keys - {key};
      }
    }

    /**
     * The first half of the body of `solveKenKen`'s loop: `cleanSingles`,
     * then `pareValues`, which finds no EQUALS rule left and so raises
     * nothing.
     */
    method CleanAndPare() returns (ghost s1: St)
      requires Valid()
      modifies this`possDic, this`solveDic, this`ruleList
      ensures Valid() && ruleList == OtherRules(old(ruleList))
      ensures WellFormed(size, s1) && RulesShaped(size, s1, ruleList)
      ensures s1 == Reductions.CleanSingles(old(State()), EqualsRules(old(ruleList)))
      ensures State() == PareUpTo(size, s1, ruleList)
    {
      ghost var rules := ruleList;
      CleanSingles();
      s1 := State();
      OtherRulesTwice(rules);
      var err := PareValues();
      assert !err;
    }

    /**
     * The second half of the body of `solveKenKen`'s loop: `subGroups`,
     * `necessaryRuleValues`, then `kenkenSolved`.
     */
    method ReduceAndTest() returns (ghost s3: St)
      requires Valid()
      modifies this`possDic, this`solveDic, this`solved
      ensures Valid() && WellFormed(size, s3)
      ensures s3 == Reductions.SubGroups(size, old(State()))
      ensures State() == ApplyDrops(s3, NecessaryDrops(MasterOf(s3), size))
      ensures solved == AllSingle(possDic)
    {
      ghost var st0 := State();
      ghost var n := size;
      ghost var rl := ruleList;
      SubGroups();
      assert size == n && ruleList == rl;
      s3 := State();
      NecessaryRuleValues();
      assert size == n && ruleList == rl;
      RulesShapedSameKeys(n, st0, State(), rl, rl);
      ghost var fin := State();
      KenkenSolved();
      assert size == n && ruleList == rl && State() == fin;
    }

    /**
     * The passes of one cycle of `solveKenKen`: `cleanSingles`,
     * `pareValues`, `subGroups`, `necessaryRuleValues` and `kenkenSolved`.
     */
    method Passes()
      requires Valid()
      modifies this`possDic, this`solveDic, this`ruleList, this`solved
      ensures Valid() && ruleList == OtherRules(old(ruleList))
      ensures State() == Cycle(size, old(State()), old(ruleList))
      ensures solved == AllSingle(possDic)
    {
      ghost var st0 := State();
      ghost var rules := ruleList;
      ghost var n: nat := size;
      ghost var s1 := CleanAndPare();
      assert size == n && ruleList == OtherRules(rules);
      ghost var s2 := State();
      ghost var s3 := ReduceAndTest();
      assert size == n && ruleList == OtherRules(rules);
      CycleIs(n, st0, rules, s1, s2, s3, State());
    }

    /**
     * The body of `solveKenKen`'s loop: the passes of one cycle. From
     * ready tables (a fresh puzzle, or consistent tables once no EQUALS
     * rule is left) the tables end up consistent, and no candidate list
     * grows.
     */
    method SolveCycle()
      requires Valid()
      modifies this`possDic, this`solveDic, this`ruleList, this`solved
      ensures Valid() && ruleList == OtherRules(old(ruleList))
      ensures State() == Cycle(size, old(State()), old(ruleList))
      ensures solved == AllSingle(possDic)
      ensures CycleReady(old(State()), old(ruleList)) ==> ShrunkFrom(old(possDic), State())
    {
      ghost var st0 := State();
      ghost var rules := ruleList;
      ghost var n: nat := size;
      Passes();
      if CycleReady(st0, rules) {
        CycleShrinks(n, st0, rules);
      }
    }

    /**
     * The solver on an n-by-n puzzle whose tables were st0 and whose rules
     * were rules0 has run `cycles` cycles of `solveKenKen`, and `solved`
     * says whether every cell is down to one candidate.
     */
    ghost predicate Reached(n: nat, st0: St, rules0: seq<Rule>, cycles: nat)
      reads this
    {
      && size == n && Valid() && WellFormed(n, st0) && RulesShaped(n, st0, rules0)
      && State() == Cycles(n, st0, rules0, cycles) && ruleList == RulesAfter(rules0, cycles)
      && solved == AllSingle(possDic)
    }

    /**
     * What the loop of `solveKenKen` leaves, run from tables st0 and rules
     * rules0 with the answers `replies` and at most `fuel` cycles: the
     * tables are those after `cycles` cycles, `solved` says whether every
     * cell is down to one candidate, and `cycles` is where the loop leaves.
     */
    ghost predicate Ran(st0: St, rules0: seq<Rule>, fuel: nat, replies: seq<string>, cycles: nat)
      reads this
    {
      && 0 <= size && Reached(size, st0, rules0, cycles)
      && Exits(size, st0, rules0, fuel, replies, cycles)
    }

    /**
     * The state of the loop of `solveKenKen` after `cycles` cycles: `used`
     * replies were read, one per stalled cycle, `stop` says whether the
     * last of them said stop, and the loop went on after every earlier cycle.
     */
    ghost predicate Looping(n: nat, st0: St, rules0: seq<Rule>, replies: seq<string>, cycles: nat, used: nat, stop: bool)
      reads this
    {
      && Reached(n, st0, rules0, cycles)
      && used == StallCount(n, st0, rules0, cycles)
      && (stop <==> StopsAfter(n, st0, rules0, replies, cycles))
      && GoesOn(n, st0, rules0, replies, cycles)
    }

    /**
     * One turn of the loop of `solveKenKen`, the (cycles + 1)-th: a cycle
     * of the four passes, then, when the total number of assignments did
     * not change, the question whether to stop, answered by the `used`-th
     * reply. A cycle that changed the total reads no reply and goes on.
     */
    method Turn(ghost n: nat, ghost st0: St, ghost rules0: seq<Rule>, cycles: nat, replies: seq<string>, used: nat)
      returns (stop: bool, next: nat)
      requires Reached(n, st0, rules0, cycles) && used == StallCount(n, st0, rules0, cycles)
      modifies this`possDic, this`solveDic, this`ruleList, this`solved
      // compared with true so that Reached is checked as one fact, not conjunct by conjunct
      ensures Reached(n, st0, rules0, cycles + 1) == true
      ensures next == StallCount(n, st0, rules0, cycles + 1)
      ensures stop <==> StopsAfter(n, st0, rules0, replies, cycles + 1)
    {
      ghost var prev := State();
      ghost var rl := ruleList;
      var solveDicSizeBefore := TotalAssignments();
      SolveCycle();
      ghost var after := State();
      assert size == n && ruleList == OtherRules(rl);
      CyclesStep(n, st0, rules0, cycles, prev, rl, after);
      StallStep(n, st0, rules0, replies, cycles);
      var solveDicSizeAfter := TotalAssignments();
      if solveDicSizeBefore == solveDicSizeAfter {
        var exit := ReplyAt(replies, used);
        stop, next := Stops(exit), used + 1;
      } else {
        stop, next := false, used;
      }
    }

    /**
     * The loop of `solveKenKen`: cycles of the four passes until every
     * cell has one candidate or a stalled cycle is answered "y" or "".
     * At most `fuel` cycles run. From fresh tables, the tables after the
     * first cycle are consistent and no candidate list has grown.
     */
    method RunCycles(ghost st0: St, ghost rules0: seq<Rule>, fuel: nat, replies: seq<string>) returns (cycles: nat)
      requires size == 9 && Valid() && State() == st0 && ruleList == rules0
      modifies this`possDic, this`solveDic, this`ruleList, this`solved
      // as for Reached in Turn
      ensures Ran(st0, rules0, fuel, replies, cycles) == true
      ensures FreshTables(st0, rules0) && 0 < cycles ==> Consistent(State()) && Shrinks(st0.poss, possDic)
    {
      var n: nat := size;
      KenkenSolved();
      var stop := false;
      var used := 0;
      cycles := 0;
      while !solved && !stop && cycles < fuel
        // as for Reached in Turn
        invariant cycles <= fuel && Looping(n, st0, rules0, replies, cycles, used, stop) == true
      {
        stop, used := Step(n, st0, rules0, replies, cycles, used, stop);
        cycles := cycles + 1;
      }
      if FreshTables(st0, rules0) && 0 < cycles {
        ShrunkAfter(n, st0, rules0, cycles);
      }
    }

    /** A turn of the loop, carrying its state from one cycle to the next. */
    method Step(ghost n: nat, ghost st0: St, ghost rules0: seq<Rule>, replies: seq<string>, cycles: nat, used: nat, stop: bool)
      returns (stop': bool, used': nat)
      requires Looping(n, st0, rules0, replies, cycles, used, stop) && !solved && !stop
      modifies this`possDic, this`solveDic, this`ruleList, this`solved
      ensures Looping(n, st0, rules0, replies, cycles + 1, used', stop')
    {
      stop', used' := Turn(n, st0, rules0, cycles, replies, used);
    }

    /** The puzzle object takes the solver's tables, and shows the value of
        every cell the solver has down to one candidate. */
    method HandOver()
      modifies k`solveDic, k`possDic, k`displayedNumbers
      ensures k.solveDic == old(k.solveDic) + solveDic && k.possDic == old(k.possDic) + possDic
      ensures Shows(old(k.displayedNumbers), k.displayedNumbers, possDic)
    {
      var puzzle := k;
      puzzle.UpdateSolveDic(solveDic);
      puzzle.UpdatePossDic(possDic);
    }

    /** `solveKenKen`: the loop, then the puzzle object takes the solver's tables. */
    method SolveKenKen(fuel: nat, replies: seq<string>) returns (cycles: nat)
      requires size == 9 && Valid()
      modifies this`possDic, this`solveDic, this`ruleList, this`solved, k`solveDic, k`possDic, k`displayedNumbers
      ensures Ran(old(State()), old(ruleList), fuel, replies, cycles)
      ensures FreshTables(old(State()), old(ruleList)) && 0 < cycles ==>
        Consistent(State()) && Shrinks(old(possDic), possDic)
      ensures k.solveDic == old(k.solveDic) + solveDic && k.possDic == old(k.possDic) + possDic
      ensures Shows(old(k.displayedNumbers), k.displayedNumbers, possDic)
    {
      ghost var st0, rules0 := State(), ruleList;
      cycles := RunCycles(st0, rules0, fuel, replies);
      ghost var st1, rules1, solved1 := State(), ruleList, solved;
      assert Ran(st0, rules0, fuel, replies, cycles);
      HandOver();
      assert State() == st1 && ruleList == rules1 && solved == solved1;
    }
  }
}
