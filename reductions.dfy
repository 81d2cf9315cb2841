/**
 * The eliminations of the solver that work on single cells and on lines:
 * fixing the cells of one-cell cages (`cleanSingles`, `setNodeEqual`)
 * and the naked-subset rule along rows and columns (`subGroups`,
 * `reduceRow`, `reduceColumn`, `allowedValueSet`).
 */
module Reductions {
  import opened Lists
  import opened Itertools
  import opened KenKenClass
  import opened SolverSpec

  // -----------------------------------------------------------------------
  // Fixing one cell: setNodeEqual
  // -----------------------------------------------------------------------

  /** `setNodeEqual` walks a over 0..8 whatever the board size. */
  const STRIKE_SPAN := 9

  /** The cells other than `node` that `setNodeEqual(node, val)` strikes
      `val` from: those sharing its first coordinate or its second, with
      the other coordinate in 0..8. */
  predicate Struck(node: Cell, c: Cell) {
    && c != node
    && ((c.0 == node.0 && 0 <= c.1 < STRIKE_SPAN) || (c.1 == node.1 && 0 <= c.0 < STRIKE_SPAN))
  }

  /**
   * The candidate table `setNodeEqual(node, val)` leaves: `node` holds
   * just `val`, every struck cell that has a list loses its first `val`
   * (a missing cell or value is skipped, as the source's bare `except`
   * does), and every other cell keeps its list.
   */
  function SetEqual(poss: Poss, node: Cell, val: int): (r: Poss)
    ensures r.Keys == poss.Keys + {node}
  {
    map c | c in poss.Keys + {node} ::
      if c == node then [val]
      else if Struck(node, c) then RemoveFirst(poss[c], val)
      else poss[c]
  }

  /** After `setNodeEqual` the node's only candidate is `val`, no struck
      cell lists `val` any more (lists have no repeats), struck cells
      lose nothing else and no other cell changes. */
  lemma SetEqualMeans(poss: Poss, node: Cell, val: int)
    requires forall c :: c in poss ==> StrictlyIncreasing(poss[c], IntLess)
    ensures SetEqual(poss, node, val)[node] == [val]
    ensures forall c :: c in poss && Struck(node, c) ==>
      val !in SetEqual(poss, node, val)[c] &&
      forall x :: x != val ==> (x in SetEqual(poss, node, val)[c] <==> x in poss[c])
    ensures forall c :: c in poss && c != node && !Struck(node, c) ==> SetEqual(poss, node, val)[c] == poss[c]
    ensures forall c :: c in SetEqual(poss, node, val) ==> StrictlyIncreasing(SetEqual(poss, node, val)[c], IntLess)
  {
    var r := SetEqual(poss, node, val);
    forall c | c in poss && Struck(node, c)
      ensures val !in r[c] && forall x :: x != val ==> (x in r[c] <==> x in poss[c])
    {
      StrictlyIncreasingNoDup(poss[c], IntLess);
      RemoveFirstNoDup(poss[c], val);
      forall x | x != val ensures x in r[c] <==> x in poss[c] {
        RemoveFirstKeepsOthers(poss[c], val, x);
      }
    }
    forall c | c in r ensures StrictlyIncreasing(r[c], IntLess) {
      if c != node && Struck(node, c) {
        RemoveFirstIncreasing(poss[c], val, IntLess);
      }
    }
  }

  // -----------------------------------------------------------------------
  // One-cell cages: cleanSingles
  // -----------------------------------------------------------------------

  /** The EQUALS rules of a rule list, in order. */
  function EqualsRules(rules: seq<Rule>): (r: seq<Rule>)
    ensures forall x :: x in r <==> x in rules && x.op == EQUALS
  {
    if rules == [] then []
    else
      assert rules == [rules[0]] + rules[1..];
      (if rules[0].op == EQUALS then [rules[0]] else []) + EqualsRules(rules[1..])
  }

  /** The rules `cleanSingles` leaves in the rule list. */
  function OtherRules(rules: seq<Rule>): (r: seq<Rule>)
    ensures forall x :: x in r <==> x in rules && x.op != EQUALS
  {
    if rules == [] then []
    else
      assert rules == [rules[0]] + rules[1..];
      (if rules[0].op != EQUALS then [rules[0]] else []) + OtherRules(rules[1..])
  }

  /** `ruleList.remove(rule)` on the first EQUALS rule: the EQUALS rules
      lose their first, and the others stay as they were. */
  lemma {:induction false} RemoveFirstEquals(s: seq<Rule>, x: Rule)
    requires EqualsRules(s) != [] && x == EqualsRules(s)[0]
    ensures EqualsRules(RemoveFirst(s, x)) == EqualsRules(s)[1..]
    ensures OtherRules(RemoveFirst(s, x)) == OtherRules(s)
    decreases |s|
  {
    assert s == [s[0]] + s[1..];
    if s[0] == x {
      assert RemoveFirst(s, x) == s[1..];
      assert EqualsRules(s) == [x] + EqualsRules(s[1..]);
    } else {
      assert s[0].op != EQUALS;
      assert EqualsRules(s) == EqualsRules(s[1..]);
      RemoveFirstEquals(s[1..], x);
      assert RemoveFirst(s, x) == [s[0]] + RemoveFirst(s[1..], x);
      assert RemoveFirst(s, x)[1..] == RemoveFirst(s[1..], x);
    }
  }

  /** A rule list without EQUALS rules is its own list of other rules. */
  lemma {:induction false} NoEqualsOther(s: seq<Rule>)
    requires EqualsRules(s) == []
    ensures OtherRules(s) == s
  {
    if s != [] {
      assert s[0] in s;
      NoEqualsOther(s[1..]);
      assert s == [s[0]] + s[1..];
    }
  }

  /** A list without EQUALS rules has none to pick out. */
  lemma {:induction false} NoEqualsPicked(s: seq<Rule>)
    requires forall x :: x in s ==> x.op != EQUALS
    ensures EqualsRules(s) == []
  {
    if s != [] {
      assert s[0] in s;
      assert forall x :: x in s[1..] ==> x in s;
      NoEqualsPicked(s[1..]);
    }
  }

  /** Every EQUALS rule names at least one cell, the one `cleanSingles` fixes. */
  ghost predicate EqualsHaveCell(rules: seq<Rule>) {
    forall r :: r in rules && r.op == EQUALS ==> |r.cells| >= 1
  }

  /** One step of `cleanSingles`: fix the cell of rule r to its target and
      give its cage the single assignment (target,). */
  function FixSingle(st: St, r: Rule): St
    requires |r.cells| >= 1
  {
    St(SetEqual(st.poss, r.cells[0], r.target), st.solve[r.cells := [[r.target]]])
  }

  /** The state `cleanSingles` reaches after handling the EQUALS rules eqs, in order. */
  function CleanSingles(st: St, eqs: seq<Rule>): St
    requires forall r :: r in eqs ==> |r.cells| >= 1
  {
    if eqs == [] then st
    else
      var init := eqs[..|eqs| - 1];
      assert forall r :: r in init ==> r in eqs;
      FixSingle(CleanSingles(st, init), eqs[|eqs| - 1])
  }

  /** Handling one more EQUALS rule is one more step. */
  lemma CleanSinglesSnoc(st: St, eqs: seq<Rule>, q: nat)
    requires q < |eqs| && forall r :: r in eqs ==> |r.cells| >= 1
    ensures |eqs[q].cells| >= 1
    ensures CleanSingles(st, eqs[..q + 1]) == FixSingle(CleanSingles(st, eqs[..q]), eqs[q])
  {
    assert eqs[q] in eqs;
    assert eqs[..q + 1][..q] == eqs[..q];
  }

  /** The one-cell cages of a well-formed table. */
  ghost predicate SinglesInTable(size: int, st: St, eqs: seq<Rule>) {
    forall r :: r in eqs ==> |r.cells| == 1 && r.cells in st.solve
  }

  /** The single assignment (t,) allows exactly the candidate t. */
  lemma CandidatesOfSingle(t: int)
    ensures Candidates([[t]], 0) == [t]
  {
    IntLessOrder();
    forall x ensures x in [t] <==> x in Candidates([[t]], 0) {
      CandidatesMeans([[t]], 0, x);
    }
    StrictlyIncreasingUnique([t], Candidates([[t]], 0), IntLess);
  }

  /** One step of `cleanSingles` keeps the tables well formed and the set
      of cells and cages the same, and leaves the fixed cage consistent. */
  lemma FixSingleWellFormed(size: int, st: St, r: Rule)
    requires WellFormed(size, st)
    requires |r.cells| == 1 && r.cells in st.solve
    ensures WellFormed(size, FixSingle(st, r))
    ensures FixSingle(st, r).poss.Keys == st.poss.Keys && FixSingle(st, r).solve.Keys == st.solve.Keys
    ensures ConsistentAt(FixSingle(st, r), r.cells)
  {
    var nw := FixSingle(st, r);
    var node := r.cells[0];
    assert node in r.cells;
    SetEqualMeans(st.poss, node, r.target);
    WellFormedSameKeys(size, st, nw);
    assert r.cells == [node];
    CandidatesOfSingle(r.target);
  }

  /** `cleanSingles` keeps the tables well formed, with the same cells and cages. */
  lemma {:induction false} CleanSinglesWellFormed(size: int, st: St, eqs: seq<Rule>)
    requires WellFormed(size, st)
    requires SinglesInTable(size, st, eqs)
    ensures WellFormed(size, CleanSingles(st, eqs))
    ensures CleanSingles(st, eqs).poss.Keys == st.poss.Keys
    ensures CleanSingles(st, eqs).solve.Keys == st.solve.Keys
  {
    if eqs != [] {
      var init := eqs[..|eqs| - 1];
      assert forall r :: r in init ==> r in eqs;
      CleanSinglesWellFormed(size, st, init);
      FixSingleWellFormed(size, CleanSingles(st, init), eqs[|eqs| - 1]);
    }
  }

  /** The cage of the last fixed rule is consistent, and so is every other
      cage that was consistent and holds no struck or fixed cell. */
  lemma FixSingleKeepsConsistent(size: int, st: St, r: Rule, K: seq<Cell>)
    requires WellFormed(size, st)
    requires |r.cells| == 1 && r.cells in st.solve
    requires K in st.solve && K != r.cells && ConsistentAt(st, K)
    requires forall c :: c in K ==> !Struck(r.cells[0], c)
    ensures WellFormed(size, FixSingle(st, r))
    ensures ConsistentAt(FixSingle(st, r), K)
  {
    FixSingleWellFormed(size, st, r);
    var node := r.cells[0];
    assert node in r.cells;
    SetEqualMeans(st.poss, node, r.target);
    forall i | 0 <= i < |K| ensures K[i] != node {
      assert K[i] in K;
    }
  }

  /** EQUALS rules that fixing one after the other cannot undo: two of
      them on the same cell have the same target, and two of them on one
      line (a cell the other strikes) have different targets. */
  ghost predicate SinglesApart(eqs: seq<Rule>) {
    forall r1, r2 :: r1 in eqs && r2 in eqs && |r1.cells| >= 1 && |r2.cells| >= 1 ==>
      && (r1.cells[0] == r2.cells[0] ==> r1.target == r2.target)
      && (Struck(r1.cells[0], r2.cells[0]) ==> r1.target != r2.target)
  }

  /** Every EQUALS rule's target is a candidate of its cell. */
  ghost predicate TargetsAllowed(poss: Poss, eqs: seq<Rule>) {
    forall r :: r in eqs && |r.cells| >= 1 ==> r.cells[0] in poss && r.target in poss[r.cells[0]]
  }

  /** Every EQUALS rule is fixed: its cell holds just the target and its
      cage the single assignment (target,). */
  ghost predicate SinglesFixed(st: St, eqs: seq<Rule>) {
    forall r :: r in eqs && |r.cells| >= 1 ==>
      && r.cells[0] in st.poss && st.poss[r.cells[0]] == [r.target]
      && r.cells in st.solve && st.solve[r.cells] == [[r.target]]
  }

  /** `setNodeEqual` takes candidates away, except at the node itself,
      which keeps just val: so when val was a candidate of the node in p0,
      a table that shrank from p0 still has. */
  lemma SetEqualShrinks(p0: Poss, poss: Poss, node: Cell, val: int)
    requires Shrinks(p0, poss) && node in p0 && val in p0[node]
    ensures Shrinks(p0, SetEqual(poss, node, val))
  {
    var r := SetEqual(poss, node, val);
    forall c, x | c in p0 && x in r[c] ensures x in p0[c] {
      if c != node && Struck(node, c) {
        RemoveFirstSubset(poss[c], val);
      }
    }
  }

  /** A cell that holds just t keeps it through `setNodeEqual` of another
      cell, unless that one strikes it with t itself. */
  lemma SetEqualKeepsSingle(poss: Poss, node: Cell, val: int, c: Cell, t: int)
    requires c in poss && poss[c] == [t] && c != node
    requires Struck(node, c) ==> t != val
    ensures SetEqual(poss, node, val)[c] == [t]
  {
    if Struck(node, c) {
      assert RemoveFirst([t][1..], val) == [];
    }
  }

  /** One step of `cleanSingles` on apart rules: the rules fixed before
      stay fixed, and so does the new one. */
  lemma FixSingleKeepsFixed(st: St, done: seq<Rule>, r: Rule)
    requires |r.cells| == 1 && r.cells[0] in st.poss
    requires SinglesFixed(st, done) && SinglesApart(done + [r])
    requires forall q :: q in done ==> |q.cells| == 1
    ensures SinglesFixed(FixSingle(st, r), done + [r])
  {
    var node := r.cells[0];
    assert r.cells == [node];
    var nw := FixSingle(st, r);
    assert r in done + [r];
    forall q | q in done + [r] && |q.cells| >= 1
      ensures q.cells[0] in nw.poss && nw.poss[q.cells[0]] == [q.target]
      ensures q.cells in nw.solve && nw.solve[q.cells] == [[q.target]]
    {
      if q != r {
        assert q in done;
        var c := q.cells[0];
        assert q.cells == [c];
        if c == node {
          assert q.cells == r.cells && q.target == r.target;
        } else {
          SetEqualKeepsSingle(st.poss, node, r.target, c, q.target);
        }
      }
    }
  }

  /** `cleanSingles` on apart rules whose targets are candidates: no
      candidate list grows, and every rule ends up fixed. */
  lemma {:induction false} CleanSinglesShrinks(size: int, st: St, eqs: seq<Rule>)
    requires WellFormed(size, st) && SinglesInTable(size, st, eqs)
    requires SinglesApart(eqs) && TargetsAllowed(st.poss, eqs)
    ensures Shrinks(st.poss, CleanSingles(st, eqs).poss)
    ensures SinglesFixed(CleanSingles(st, eqs), eqs)
  {
    if eqs != [] {
      var init := eqs[..|eqs| - 1];
      var last := eqs[|eqs| - 1];
      assert eqs == init + [last];
      assert forall q :: q in init ==> q in eqs;
      assert last in eqs;
      CleanSinglesShrinks(size, st, init);
      CleanSinglesWellFormed(size, st, init);
      var prev := CleanSingles(st, init);
      assert last.cells[0] in last.cells;
      SetEqualShrinks(st.poss, prev.poss, last.cells[0], last.target);
      FixSingleKeepsFixed(prev, init, last);
    }
  }

  /** A fixed one-cell cage is consistent. */
  lemma FixedConsistent(st: St, r: Rule)
    requires Shaped(st) && |r.cells| == 1
    requires r.cells[0] in st.poss && st.poss[r.cells[0]] == [r.target]
    requires r.cells in st.solve && st.solve[r.cells] == [[r.target]]
    ensures ConsistentAt(st, r.cells)
  {
    CandidatesOfSingle(r.target);
  }

  /** `cleanSingles` on apart rules whose targets are candidates keeps the
      tables well formed, leaves every fixed cage consistent, and no
      candidate list grows. */
  lemma CleanSinglesConsistent(size: int, st: St, eqs: seq<Rule>)
    requires WellFormed(size, st) && SinglesInTable(size, st, eqs)
    requires SinglesApart(eqs) && TargetsAllowed(st.poss, eqs)
    ensures WellFormed(size, CleanSingles(st, eqs))
    ensures CleanSingles(st, eqs).solve.Keys == st.solve.Keys
    ensures forall r :: r in eqs ==> ConsistentAt(CleanSingles(st, eqs), r.cells)
    ensures Shrinks(st.poss, CleanSingles(st, eqs).poss)
  {
    CleanSinglesWellFormed(size, st, eqs);
    CleanSinglesShrinks(size, st, eqs);
    forall r | r in eqs ensures ConsistentAt(CleanSingles(st, eqs), r.cells) {
      FixedConsistent(CleanSingles(st, eqs), r);
    }
  }

  // -----------------------------------------------------------------------
  // Naked subsets along a line: reduceRow, reduceColumn
  // -----------------------------------------------------------------------

  /** The candidate lists of some cells, one after the other (a cell off
      the board contributes nothing). */
  function Gather(poss: Poss, nodes: seq<Cell>): seq<int> {
    if nodes == [] then []
    else (if nodes[0] in poss then poss[nodes[0]] else []) + Gather(poss, nodes[1..])
  }

  /** `allowedValueSet`: the sorted distinct candidates of some cells,
      `removeDuplicates` of their lists put together. */
  function AllowedValues(poss: Poss, nodes: seq<Cell>): seq<int> {
    UniqueSorted(Gather(poss, nodes))
  }

  lemma {:induction false} GatherMeans(poss: Poss, nodes: seq<Cell>, x: int)
    ensures x in Gather(poss, nodes) <==> exists n :: n in nodes && n in poss && x in poss[n]
  {
    if nodes != [] {
      GatherMeans(poss, nodes[1..], x);
      assert nodes == [nodes[0]] + nodes[1..];
    }
  }

  /** The allowed values are strictly increasing, and a value is allowed
      exactly when one of the cells lists it. */
  lemma AllowedValuesMeans(poss: Poss, nodes: seq<Cell>, x: int)
    ensures StrictlyIncreasing(AllowedValues(poss, nodes), IntLess)
    ensures x in AllowedValues(poss, nodes) <==> exists n :: n in nodes && n in poss && x in poss[n]
  {
    UniqueSortedMeans(Gather(poss, nodes));
    GatherMeans(poss, nodes, x);
  }

  /** `reduceRow(r)`'s line: the cells (i, r), i in 0..size-1. */
  function RowCells(size: nat, r: int): seq<Cell> {
    if size == 0 then [] else RowCells(size - 1, r) + [(size - 1, r)]
  }

  /** `reduceColumn(c)`'s line: the cells (c, i), i in 0..size-1. */
  function ColumnCells(size: nat, c: int): seq<Cell> {
    if size == 0 then [] else ColumnCells(size - 1, c) + [(c, size - 1)]
  }

  /** Position i of row r is cell (i, r); position i of column c is cell (c, i). */
  lemma {:induction false} LineCellsMeans(size: nat, r: int, i: nat)
    requires i < size
    ensures |RowCells(size, r)| == size && RowCells(size, r)[i] == (i, r)
    ensures |ColumnCells(size, r)| == size && ColumnCells(size, r)[i] == (r, i)
  {
    if i < size - 1 {
      LineCellsMeans(size - 1, r, i);
    } else if size > 1 {
      LineCellsMeans(size - 1, r, 0);
    }
  }

  /** The cells of line L outside the subset `sub`, in line order. */
  function Outside(L: seq<Cell>, sub: seq<Cell>): (r: seq<Cell>)
    ensures forall n :: n in r <==> n in L && n !in sub
  {
    if L == [] then []
    else
      assert L == [L[0]] + L[1..];
      (if L[0] !in sub then [L[0]] else []) + Outside(L[1..], sub)
  }

  /** `itertools.product(vals, nodes)` as a set of drops. */
  ghost function DropSet(vals: seq<int>, nodes: seq<Cell>): (D: set<Drop>)
    ensures forall v, n :: (v, n) in D <==> v in vals && n in nodes
  {
    set v, n | v in vals && n in nodes :: (v, n)
  }

  /** One more value in the value list adds its drops at every cell. */
  lemma DropSetValSnoc(vals: seq<int>, nodes: seq<Cell>, p: nat)
    requires p < |vals|
    ensures DropSet(vals[..p + 1], nodes) == DropSet(vals[..p], nodes) + ValDrops(vals[p], nodes)
  {
    assert vals[..p + 1] == vals[..p] + [vals[p]];
  }

  /** The drops of val at the first q cells of nodes, one cell at a time. */
  ghost function DropsUpTo(val: int, nodes: seq<Cell>, q: nat): set<Drop>
    requires q <= |nodes|
  {
    if q == 0 then {} else DropsUpTo(val, nodes, q - 1) + {(val, nodes[q - 1])}
  }

  /** The drops of val at the cells of nodes. */
  ghost function ValDrops(val: int, nodes: seq<Cell>): (D: set<Drop>)
    ensures forall d :: d in D <==> d.0 == val && d.1 in nodes
  {
    set n | n in nodes :: (val, n)
  }

  lemma {:induction false} DropsUpToAll(val: int, nodes: seq<Cell>)
    ensures DropsUpTo(val, nodes, |nodes|) == ValDrops(val, nodes)
  {
    DropsUpToPrefix(val, nodes, |nodes|);
    assert nodes[..|nodes|] == nodes;
  }

  lemma {:induction false} DropsUpToPrefix(val: int, nodes: seq<Cell>, q: nat)
    requires q <= |nodes|
    ensures DropsUpTo(val, nodes, q) == ValDrops(val, nodes[..q])
  {
    if q > 0 {
      DropsUpToPrefix(val, nodes, q - 1);
      assert nodes[..q] == nodes[..q - 1] + [nodes[q - 1]];
    }
  }

  /** The drops of val at the first q cells and then at cell q are those
      at the first q + 1 cells. */
  lemma DropNodeStep(size: int, st0: St, val: int, nodes: seq<Cell>, q: nat, st: St)
    requires WellFormed(size, st0) && q < |nodes|
    requires st == ApplyDrops(st0, DropsUpTo(val, nodes, q))
    ensures WellFormed(size, st)
    ensures ApplyDrops(st, ValDrops(val, [nodes[q]])) == ApplyDrops(st0, DropsUpTo(val, nodes, q + 1))
  {
    assert ValDrops(val, [nodes[q]]) == {(val, nodes[q])};
    ApplyDropsWellFormed(size, st0, DropsUpTo(val, nodes, q));
    ApplyDropsCompose(st0, DropsUpTo(val, nodes, q), {(val, nodes[q])});
  }

  /** The drops of vals[..p] and then of vals[p] are those of vals[..p+1]. */
  lemma DropValStep(size: int, st0: St, vals: seq<int>, nodes: seq<Cell>, p: nat, st: St)
    requires WellFormed(size, st0) && p < |vals|
    requires st == ApplyDrops(st0, DropSet(vals[..p], nodes))
    ensures WellFormed(size, st)
    ensures ApplyDrops(st, ValDrops(vals[p], nodes)) == ApplyDrops(st0, DropSet(vals[..p + 1], nodes))
  {
    ApplyDropsWellFormed(size, st0, DropSet(vals[..p], nodes));
    ApplyDropsCompose(st0, DropSet(vals[..p], nodes), ValDrops(vals[p], nodes));
    DropSetValSnoc(vals, nodes, p);
  }

  /** One naked-subset test: a line and a subset of its cells. */
  type Task = (seq<Cell>, seq<Cell>)

  /**
   * One naked-subset test: when the subset's cells together allow only
   * as many values as it has cells, those values are dropped from the
   * line's other cells.
   */
  ghost function SubsetStep(st: St, L: seq<Cell>, sub: seq<Cell>): (r: St)
    requires Shaped(st)
    ensures Shaped(r) && r.poss.Keys == st.poss.Keys && r.solve.Keys == st.solve.Keys
  {
    var allowed := AllowedValues(st.poss, sub);
    if |allowed| == |sub| then
      ApplyDropsShaped(st, DropSet(allowed, Outside(L, sub)));
      ApplyDrops(st, DropSet(allowed, Outside(L, sub)))
    else st
  }

  /** The tests of `tasks`, one after the other in order. */
  ghost function Reduce(st: St, tasks: seq<Task>): (r: St)
    requires Shaped(st)
    ensures Shaped(r) && r.poss.Keys == st.poss.Keys && r.solve.Keys == st.solve.Keys
  {
    if tasks == [] then st
    else
      var last := tasks[|tasks| - 1];
      SubsetStep(Reduce(st, tasks[..|tasks| - 1]), last.0, last.1)
  }

  /** Running two task lists one after the other is running their concatenation. */
  lemma {:induction false} ReduceAppend(st: St, a: seq<Task>, b: seq<Task>)
    requires Shaped(st)
    ensures Reduce(st, a + b) == Reduce(Reduce(st, a), b)
    decreases |b|
  {
    if b == [] {
      assert a + b == a;
    } else {
      var b' := b[..|b| - 1];
      var last := b[|b| - 1];
      assert (a + b)[..|a + b| - 1] == a + b';
      assert (a + b)[|a + b| - 1] == last;
      ReduceAppend(st, a, b');
      var mid := Reduce(st, a + b');
      assert mid == Reduce(Reduce(st, a), b');
      assert Reduce(st, a + b) == SubsetStep(mid, last.0, last.1);
      assert Reduce(Reduce(st, a), b) == SubsetStep(mid, last.0, last.1);
    }
  }

  /** The subsets of the line with lo..hi-1 cells, smallest first, each
      size in `itertools.combinations` order. */
  function LineSubsets(L: seq<Cell>, lo: nat, hi: nat): seq<seq<Cell>>
    decreases hi
  {
    if hi <= lo then [] else LineSubsets(L, lo, hi - 1) + Combinations(L, hi - 1)
  }

  /** The tests of line L for the subsets subs. */
  function TasksFor(L: seq<Cell>, subs: seq<seq<Cell>>): seq<Task> {
    if subs == [] then [] else [(L, subs[0])] + TasksFor(L, subs[1..])
  }

  lemma {:induction false} TasksForAppend(L: seq<Cell>, a: seq<seq<Cell>>, b: seq<seq<Cell>>)
    ensures TasksFor(L, a + b) == TasksFor(L, a) + TasksFor(L, b)
  {
    if a == [] {
      assert a + b == b;
    } else {
      assert (a + b)[1..] == a[1..] + b;
      TasksForAppend(L, a[1..], b);
    }
  }

  /** `reduceRow` / `reduceColumn` on line L: the tests of every subset of
      2..size-1 of its cells. */
  function LineTasks(size: nat, L: seq<Cell>): seq<Task> {
    TasksFor(L, LineSubsets(L, 2, size))
  }

  /** `subGroups`: the tests of row i and then of column i, for i in 0..upTo-1. */
  function SubGroupTasks(size: nat, upTo: nat): seq<Task> {
    if upTo == 0 then []
    else SubGroupTasks(size, upTo - 1) + LineTasks(size, RowCells(size, upTo - 1)) + LineTasks(size, ColumnCells(size, upTo - 1))
  }

  /** `subGroups`, the whole pass. */
  ghost function SubGroups(size: nat, st: St): (r: St)
    requires Shaped(st)
    ensures Shaped(r) && r.poss.Keys == st.poss.Keys && r.solve.Keys == st.solve.Keys
  {
    Reduce(st, SubGroupTasks(size, size))
  }

  // -----------------------------------------------------------------------
  // What the naked-subset rule guarantees
  // -----------------------------------------------------------------------

  /**
   * When a subset's cells allow exactly as many values as it has cells,
   * none of the line's other cells that lie in a cage lists one of those
   * values afterwards.
   */
  lemma SubsetStepRemoves(size: int, st: St, L: seq<Cell>, sub: seq<Cell>)
    requires WellFormed(size, st)
    requires |AllowedValues(st.poss, sub)| == |sub|
    ensures forall v, n :: v in AllowedValues(st.poss, sub) && n in L && n !in sub && n in st.poss && InSomeCage(st.solve, n) ==>
      v !in SubsetStep(st, L, sub).poss[n]
  {
    ApplyDropsRemoves(size, st, DropSet(AllowedValues(st.poss, sub), Outside(L, sub)));
  }

  /** A test keeps a well-formed consistent state so, and only takes
      candidates away. */
  lemma SubsetStepInvariant(size: int, st: St, L: seq<Cell>, sub: seq<Cell>)
    requires WellFormed(size, st) && Consistent(st)
    ensures WellFormed(size, SubsetStep(st, L, sub)) && Consistent(SubsetStep(st, L, sub))
    ensures Shrinks(st.poss, SubsetStep(st, L, sub).poss)
  {
    var allowed := AllowedValues(st.poss, sub);
    if |allowed| == |sub| {
      ApplyDropsInvariant(size, st, DropSet(allowed, Outside(L, sub)));
    }
  }

  /** The tests keep a well-formed consistent state so, and the candidates
      only shrink: in particular `subGroups` never lets a list grow. */
  lemma {:induction false} ReduceInvariant(size: int, st: St, tasks: seq<Task>)
    requires WellFormed(size, st) && Consistent(st)
    ensures WellFormed(size, Reduce(st, tasks)) && Consistent(Reduce(st, tasks))
    ensures Shrinks(st.poss, Reduce(st, tasks).poss)
  {
    if tasks != [] {
      var init := tasks[..|tasks| - 1];
      ReduceInvariant(size, st, init);
      var prev := Reduce(st, init);
      var last := tasks[|tasks| - 1];
      SubsetStepInvariant(size, prev, last.0, last.1);
      ShrinksTrans(st.poss, prev.poss, Reduce(st, tasks).poss);
    }
  }

  /** `subGroups` keeps a well-formed consistent state so, and no
      candidate list grows. */
  lemma SubGroupsInvariant(size: nat, st: St)
    requires WellFormed(size, st) && Consistent(st)
    ensures WellFormed(size, SubGroups(size, st)) && Consistent(SubGroups(size, st))
    ensures Shrinks(st.poss, SubGroups(size, st).poss)
  {
    ReduceInvariant(size, st, SubGroupTasks(size, size));
  }

  /** The tests keep a well-formed state well formed, consistent or not. */
  lemma {:induction false} ReduceWellFormed(size: int, st: St, tasks: seq<Task>)
    requires WellFormed(size, st)
    ensures WellFormed(size, Reduce(st, tasks))
  {
    if tasks != [] {
      var init := tasks[..|tasks| - 1];
      var last := tasks[|tasks| - 1];
      ReduceWellFormed(size, st, init);
      var prev := Reduce(st, init);
      if |AllowedValues(prev.poss, last.1)| == |last.1| {
        ApplyDropsWellFormed(size, prev, DropSet(AllowedValues(prev.poss, last.1), Outside(last.0, last.1)));
      }
    }
  }
}
