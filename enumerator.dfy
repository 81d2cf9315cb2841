/**
 * How `pareValues` enumerates the value tuples a cage may take: the
 * sorted combinations an operation allows (`possibleValuesForOperation`),
 * the test that one ordering of values fits the cage's cells under the
 * current candidate table (`possValOrderFits`), and the resulting list of
 * tuples.
 */
module Enumerator {
  import opened Lists
  import opened Itertools
  import opened KenKenClass
  import opened SolverSpec

  // -----------------------------------------------------------------------
  // possibleValuesForOperation
  // -----------------------------------------------------------------------

  /**
   * `possibleValuesForOperation(operation, value, l)` on a board of the
   * given size. EQUALS raises in the source (an equals rule that was not
   * removed) and gives None here. Sums and products range over the sorted
   * combinations with replacement of l values; differences and quotients
   * over the increasing pairs, whatever l is. Every tag other than the
   * four named ones is read as division; `float(b) / a == value` is
   * written `b == value * a`.
   */
  function PossibleValues(size: int, op: int, value: int, l: nat): (r: Option<seq<seq<int>>>)
    ensures r.None? <==> op == EQUALS
  {
    if op == EQUALS then None
    else if op == PLUS then Some(Filter(CombinationsWithReplacement(1, size, l), c => Sum(c) == value))
    else if op == TIMES then Some(Filter(CombinationsWithReplacement(1, size, l), c => Product(c) == value))
    else if op == MINUS then Some(Filter(Combinations(Range(1, size), 2), c => |c| == 2 && c[1] - c[0] == value))
    else Some(Filter(Combinations(Range(1, size), 2), c => |c| == 2 && c[1] == value * c[0]))
  }

  /** A sorted combination of values of 1..size that meets the operation's
      target: l values for a sum or a product, an increasing pair for a
      difference or a quotient. */
  ghost predicate AllowedCombination(size: int, op: int, value: int, l: nat, c: seq<int>) {
    if op == PLUS || op == TIMES then
      && |c| == l && NonDecreasing(c)
      && (forall x :: x in c ==> 1 <= x <= size)
      && (if op == PLUS then Sum(c) == value else Product(c) == value)
    else
      && |c| == 2 && 1 <= c[0] < c[1] <= size
      && (if op == MINUS then c[1] - c[0] == value else c[1] == value * c[0])
  }

  /** The generator yields exactly the allowed combinations. */
  lemma PossibleValuesMeans(size: int, op: int, value: int, l: nat, c: seq<int>)
    requires op != EQUALS
    ensures c in PossibleValues(size, op, value, l).value <==> AllowedCombination(size, op, value, l, c)
  {
    if op == PLUS || op == TIMES {
      InCombinationsWithReplacement(1, size, l, c);
    } else {
      PairCombinations(1, size, c);
    }
  }

  // -----------------------------------------------------------------------
  // possValOrderFits
  // -----------------------------------------------------------------------

  /** The cells a fit test reads: the cage's cells lie on the board and
      the board's cells have candidate lists. */
  ghost predicate OnBoard(size: int, poss: Poss, nodes: seq<Cell>) {
    && Grid(size) <= poss.Keys
    && forall c :: c in nodes ==> c in Grid(size)
  }

  /**
   * The inner loop over j of `possValOrderFits` for cell (a, b) and value
   * v, from j on: no other cell (a, j) and no other cell (j, b) is already
   * solved to v.
   */
  function LineFreeFrom(size: int, poss: Poss, a: int, b: int, v: int, j: nat): bool
    requires Grid(size) <= poss.Keys
    requires 0 <= a < size && 0 <= b < size
    decreases size - j
  {
    if j >= size then true
    else if (j != b && poss[(a, j)] == [v]) || (j != a && poss[(j, b)] == [v]) then false
    else LineFreeFrom(size, poss, a, b, v, j + 1)
  }

  /** The first loop of `possValOrderFits`, from position i on: every value
      is still a candidate of its cell, and no cell of its lines is already
      solved to it. */
  function NodesFitFrom(size: int, poss: Poss, nodes: seq<Cell>, order: seq<int>, i: nat): bool
    requires OnBoard(size, poss, nodes)
    requires |order| == |nodes| && i <= |nodes|
    decreases |nodes| - i
  {
    if i == |nodes| then true
    else
      assert nodes[i] in nodes;
      InGrid(size, nodes[i]);
      if order[i] !in poss[nodes[i]] then false
      else if !LineFreeFrom(size, poss, nodes[i].0, nodes[i].1, order[i], 0) then false
      else NodesFitFrom(size, poss, nodes, order, i + 1)
  }

  /** `invertDic` after the first i positions: each value taken maps to the
      cells that take it, in cage order. */
  function Invert(nodes: seq<Cell>, order: seq<int>, i: nat): map<int, seq<Cell>>
    requires |order| == |nodes| && i <= |nodes|
  {
    if i == 0 then map[]
    else
      var m := Invert(nodes, order, i - 1);
      var v := order[i - 1];
      m[v := (if v in m then m[v] else []) + [nodes[i - 1]]]
  }

  /** No two cells of the list share a first or a second coordinate. */
  predicate NoSharedLine(cs: seq<Cell>) {
    forall p, q :: 0 <= p < q < |cs| ==> cs[p].0 != cs[q].0 && cs[p].1 != cs[q].1
  }

  /** `possValOrderFits(nodeList, possValOrder)`. */
  function Fits(size: int, poss: Poss, nodes: seq<Cell>, order: seq<int>): bool
    requires OnBoard(size, poss, nodes)
    requires |order| == |nodes|
  {
    && NodesFitFrom(size, poss, nodes, order, 0)
    && var inv := Invert(nodes, order, |nodes|);
       forall v :: v in inv && |inv[v]| != 1 ==> NoSharedLine(inv[v])
  }

  /**
   * What a fitting order is: every value is a candidate of its cell; no
   * other cell in either line through a cell is solved to that cell's
   * value; and two cells of the cage that take the same value share
   * neither coordinate. Cells of the cage itself count in the line test
   * like any other cell.
   */
  ghost predicate FitsSpec(size: int, poss: Poss, nodes: seq<Cell>, order: seq<int>)
    requires OnBoard(size, poss, nodes)
    requires |order| == |nodes|
  {
    && (forall i :: 0 <= i < |nodes| ==> order[i] in poss[nodes[i]])
    && (forall i, j :: 0 <= i < |nodes| && 0 <= j < size ==> LineCellsFree(size, poss, nodes[i], order[i], j))
    && (forall p, q :: 0 <= p < q < |nodes| && order[p] == order[q] ==>
          nodes[p].0 != nodes[q].0 && nodes[p].1 != nodes[q].1)
  }

  /** Cells (a, j) and (j, b), unless they are (a, b), are not solved to v. */
  ghost predicate LineCellsFree(size: int, poss: Poss, node: Cell, v: int, j: int)
    requires Grid(size) <= poss.Keys
    requires 0 <= j < size && node in Grid(size)
  {
    InGrid(size, node);
    assert (node.0, j) in Grid(size) && (j, node.1) in Grid(size) by {
      InGrid(size, (node.0, j));
      InGrid(size, (j, node.1));
    }
    (j != node.1 ==> poss[(node.0, j)] != [v]) && (j != node.0 ==> poss[(j, node.1)] != [v])
  }

  lemma {:induction false} LineFreeFromMeans(size: int, poss: Poss, a: int, b: int, v: int, j: nat)
    requires Grid(size) <= poss.Keys
    requires 0 <= a < size && 0 <= b < size
    ensures (InGrid(size, (a, b)); LineFreeFrom(size, poss, a, b, v, j)) <==>
      forall k :: j <= k < size ==> LineCellsFree(size, poss, (a, b), v, k)
    decreases size - j
  {
    InGrid(size, (a, b));
    if j < size {
      LineFreeFromMeans(size, poss, a, b, v, j + 1);
      InGrid(size, (a, j));
      InGrid(size, (j, b));
      assert LineCellsFree(size, poss, (a, b), v, j) <==>
        !((j != b && poss[(a, j)] == [v]) || (j != a && poss[(j, b)] == [v]));
      assert (forall k :: j <= k < size ==> LineCellsFree(size, poss, (a, b), v, k)) <==>
        LineCellsFree(size, poss, (a, b), v, j) && forall k :: j + 1 <= k < size ==> LineCellsFree(size, poss, (a, b), v, k);
    }
  }

  /** The first loop accepts exactly when every position from i on holds
      a candidate of its cell that no other cell of its lines is solved to. */
  lemma {:induction false} NodesFitFromMeans(size: int, poss: Poss, nodes: seq<Cell>, order: seq<int>, i: nat)
    requires OnBoard(size, poss, nodes)
    requires |order| == |nodes| && i <= |nodes|
    ensures NodesFitFrom(size, poss, nodes, order, i) <==>
      forall k :: i <= k < |nodes| ==> NodeFits(size, poss, nodes[k], order[k])
    decreases |nodes| - i
  {
    if i < |nodes| {
      NodesFitFromMeans(size, poss, nodes, order, i + 1);
      assert nodes[i] in nodes;
      InGrid(size, nodes[i]);
      LineFreeFromMeans(size, poss, nodes[i].0, nodes[i].1, order[i], 0);
      assert (forall k :: i <= k < |nodes| ==> NodeFits(size, poss, nodes[k], order[k])) <==>
        NodeFits(size, poss, nodes[i], order[i]) && forall k :: i + 1 <= k < |nodes| ==> NodeFits(size, poss, nodes[k], order[k]);
    }
  }

  /** Value v may go in cell node: it is a candidate there and no other
      cell of the node's lines is solved to it. */
  ghost predicate NodeFits(size: int, poss: Poss, node: Cell, v: int)
    requires Grid(size) <= poss.Keys
    requires node in Grid(size)
  {
    && v in poss[node]
    && forall j :: 0 <= j < size ==> LineCellsFree(size, poss, node, v, j)
  }

  /** The cells among the first i that take value v, in cage order. */
  ghost function CellsWith(nodes: seq<Cell>, order: seq<int>, v: int, i: nat): seq<Cell>
    requires |order| == |nodes| && i <= |nodes|
  {
    if i == 0 then []
    else CellsWith(nodes, order, v, i - 1) + (if order[i - 1] == v then [nodes[i - 1]] else [])
  }

  /** `invertDic` maps each value taken to the cells that take it. */
  lemma {:induction false} InvertAt(nodes: seq<Cell>, order: seq<int>, i: nat, v: int)
    requires |order| == |nodes| && i <= |nodes|
    ensures v in Invert(nodes, order, i) ==> Invert(nodes, order, i)[v] == CellsWith(nodes, order, v, i)
    ensures v !in Invert(nodes, order, i) ==> CellsWith(nodes, order, v, i) == []
  {
    if i > 0 {
      InvertAt(nodes, order, i - 1, v);
    }
  }

  /** The cells among the first i that take v are exactly those cells. */
  lemma {:induction false} InCellsWith(nodes: seq<Cell>, order: seq<int>, v: int, i: nat, y: Cell)
    requires |order| == |nodes| && i <= |nodes|
    ensures y in CellsWith(nodes, order, v, i) <==> exists p :: 0 <= p < i && order[p] == v && nodes[p] == y
  {
    if i > 0 {
      InCellsWith(nodes, order, v, i - 1, y);
    }
  }

  /** Two cells that take the same value share no coordinate. */
  ghost predicate Apart(nodes: seq<Cell>, order: seq<int>, v: int, i: nat)
    requires |order| == |nodes| && i <= |nodes|
  {
    forall p, q :: 0 <= p < q < i && order[p] == v && order[q] == v ==>
      nodes[p].0 != nodes[q].0 && nodes[p].1 != nodes[q].1
  }

  lemma NoSharedLineSnoc(s: seq<Cell>, x: Cell)
    ensures NoSharedLine(s + [x]) <==> NoSharedLine(s) && forall y :: y in s ==> y.0 != x.0 && y.1 != x.1
  {
    var t := s + [x];
    if NoSharedLine(t) {
      forall p, q | 0 <= p < q < |s| ensures s[p].0 != s[q].0 && s[p].1 != s[q].1 {
        assert t[p] == s[p] && t[q] == s[q];
      }
      forall y | y in s ensures y.0 != x.0 && y.1 != x.1 {
        var p :| 0 <= p < |s| && s[p] == y;
        assert t[p] == y && t[|s|] == x;
      }
    }
    if NoSharedLine(s) && forall y :: y in s ==> y.0 != x.0 && y.1 != x.1 {
      forall p, q | 0 <= p < q < |t| ensures t[p].0 != t[q].0 && t[p].1 != t[q].1 {
        if q == |s| {
          assert t[p] == s[p] && s[p] in s;
        } else {
          assert t[p] == s[p] && t[q] == s[q];
        }
      }
    }
  }

  /** The cells that take v share no line exactly when they are apart. */
  lemma {:induction false} CellsWithApart(nodes: seq<Cell>, order: seq<int>, v: int, i: nat)
    requires |order| == |nodes| && i <= |nodes|
    ensures NoSharedLine(CellsWith(nodes, order, v, i)) <==> Apart(nodes, order, v, i)
  {
    if i > 0 {
      CellsWithApart(nodes, order, v, i - 1);
      var s := CellsWith(nodes, order, v, i - 1);
      if order[i - 1] == v {
        NoSharedLineSnoc(s, nodes[i - 1]);
        forall y ensures y in s <==> exists p :: 0 <= p < i - 1 && order[p] == v && nodes[p] == y {
          InCellsWith(nodes, order, v, i - 1, y);
        }
        if Apart(nodes, order, v, i) {
          assert Apart(nodes, order, v, i - 1);
        }
        if Apart(nodes, order, v, i - 1) && forall y :: y in s ==> y.0 != nodes[i - 1].0 && y.1 != nodes[i - 1].1 {
          forall p, q | 0 <= p < q < i && order[p] == v && order[q] == v
            ensures nodes[p].0 != nodes[q].0 && nodes[p].1 != nodes[q].1
          {
            if q == i - 1 {
              assert nodes[p] in s;
            }
          }
        }
      } else {
        assert CellsWith(nodes, order, v, i) == s;
        assert Apart(nodes, order, v, i) <==> Apart(nodes, order, v, i - 1);
      }
    }
  }

  /** `possValOrderFits` accepts exactly the fitting orders. */
  lemma FitsMeans(size: int, poss: Poss, nodes: seq<Cell>, order: seq<int>)
    requires OnBoard(size, poss, nodes)
    requires |order| == |nodes|
    ensures Fits(size, poss, nodes, order) <==> FitsSpec(size, poss, nodes, order)
  {
    NodesFitFromMeans(size, poss, nodes, order, 0);
    var n := |nodes|;
    var inv := Invert(nodes, order, n);
    forall v ensures (v in inv && |inv[v]| != 1 ==> NoSharedLine(inv[v])) <==> Apart(nodes, order, v, n) {
      InvertAt(nodes, order, n, v);
      CellsWithApart(nodes, order, v, n);
    }
    if FitsSpec(size, poss, nodes, order) {
      forall v ensures Apart(nodes, order, v, n) { }
    }
    if Fits(size, poss, nodes, order) {
      forall p, q | 0 <= p < q < n && order[p] == order[q]
        ensures nodes[p].0 != nodes[q].0 && nodes[p].1 != nodes[q].1
      {
        assert Apart(nodes, order, order[p], n);
      }
    }
  }

  // -----------------------------------------------------------------------
  // The tuples pareValues keeps
  // -----------------------------------------------------------------------

  /** A rule whose tuples the solver enumerates, with the arity the rules
      are created with: a sum or a product of any number of cells, or a
      difference or a quotient of two. */
  predicate Enumerable(r: Rule) {
    r.op != EQUALS && (r.op == PLUS || r.op == TIMES || |r.cells| == 2)
  }

  /** The orderings of combination c that fit the cells (the inner list of
      `solveSet`). The length test always holds for the combinations the
      solver generates. */
  function FittingOrders(size: int, poss: Poss, nodes: seq<Cell>, c: seq<int>): seq<seq<int>>
    requires OnBoard(size, poss, nodes)
  {
    Filter(Perms(c), t => |t| == |nodes| && Fits(size, poss, nodes, t))
  }

  /**
   * The `solveSet` of `pareValues` for rule r: the fitting orderings of
   * every allowed combination, flattened, sorted and without repeats.
   */
  function PareSet(size: int, poss: Poss, r: Rule): (S: seq<seq<int>>)
    requires Enumerable(r) && OnBoard(size, poss, r.cells)
    ensures forall t :: t in S ==> |t| == |r.cells|
  {
    LexLessOrder();
    Dedup(Flatten(PareParts(size, poss, r)), LexLess)
  }

  /** One list of fitting orderings per allowed combination. */
  function PareParts(size: int, poss: Poss, r: Rule): (P: seq<seq<seq<int>>>)
    requires Enumerable(r) && OnBoard(size, poss, r.cells)
    ensures var C := PossibleValues(size, r.op, r.target, |r.cells|).value;
      |P| == |C| && forall k :: 0 <= k < |C| ==> P[k] == FittingOrders(size, poss, r.cells, C[k])
  {
    var C := PossibleValues(size, r.op, r.target, |r.cells|).value;
    seq(|C|, k requires 0 <= k < |C| => FittingOrders(size, poss, r.cells, C[k]))
  }

  /** Values t meet rule r: one value of 1..size per cell, the rule's
      arithmetic holds, and the two values of a difference or a quotient
      differ. */
  ghost predicate MeetsRule(size: int, r: Rule, t: seq<int>) {
    && |t| == |r.cells|
    && (forall x :: x in t ==> 1 <= x <= size)
    && Satisfies(r.op, r.target, t)
    && (r.op != PLUS && r.op != TIMES ==> |t| == 2 && t[0] != t[1])
  }

  lemma SortedNonDecreasing(s: seq<int>)
    requires Sorted(s, IntLess)
    ensures NonDecreasing(s)
  {
  }

  /** An ordering of an increasing pair is the pair or its swap. */
  lemma PairOrdering(t: seq<int>, c: seq<int>)
    requires |t| == 2 && |c| == 2 && c[0] < c[1]
    requires multiset(t) == multiset(c)
    ensures t[0] != t[1] && Smaller(t[0], t[1]) == c[0] && Larger(t[0], t[1]) == c[1]
  {
    assert t == [t[0], t[1]] && c == [c[0], c[1]];
    assert multiset{t[0], t[1]} == multiset{c[0], c[1]};
    assert t[0] in multiset{c[0], c[1]};
    if t[0] == c[0] {
      assert multiset{t[1]} == multiset{c[1]};
    } else {
      assert multiset{t[1]} == multiset{c[0]};
    }
  }

  /** Every ordering of an allowed combination meets the rule. */
  lemma OrderingMeetsRule(size: int, r: Rule, c: seq<int>, t: seq<int>)
    requires Enumerable(r)
    requires AllowedCombination(size, r.op, r.target, |r.cells|, c)
    requires multiset(t) == multiset(c) && |t| == |r.cells|
    ensures MeetsRule(size, r, t)
  {
    assert forall x :: x in t <==> x in c by {
      forall x ensures x in t <==> x in c {
        assert x in t <==> x in multiset(t);
      }
    }
    if r.op == PLUS || r.op == TIMES {
      SumProductPermutation(t, c);
    } else {
      PairOrdering(t, c);
    }
  }

  /** Values that meet the rule are an ordering of an allowed combination. */
  lemma MeetsRuleOrdering(size: int, r: Rule, t: seq<int>) returns (c: seq<int>)
    requires Enumerable(r)
    requires MeetsRule(size, r, t)
    ensures AllowedCombination(size, r.op, r.target, |r.cells|, c)
    ensures multiset(t) == multiset(c)
  {
    if r.op == PLUS || r.op == TIMES {
      c := SortedMeets(size, r, t);
    } else {
      c := PairMeets(size, r, t);
    }
  }

  /** A sum or product cage: the sorted values are the combination. */
  lemma SortedMeets(size: int, r: Rule, t: seq<int>) returns (c: seq<int>)
    requires r.op == PLUS || r.op == TIMES
    requires MeetsRule(size, r, t)
    ensures AllowedCombination(size, r.op, r.target, |r.cells|, c)
    ensures multiset(t) == multiset(c)
  {
    IntLessOrder();
    c := Sort(t, IntLess);
    SortedNonDecreasing(c);
    SumProductPermutation(t, c);
    forall x | x in c ensures 1 <= x <= size {
      assert x in multiset(c);
      assert x in t;
    }
  }

  /** A difference or quotient cage: the pair in increasing order. */
  lemma PairMeets(size: int, r: Rule, t: seq<int>) returns (c: seq<int>)
    requires r.op != PLUS && r.op != TIMES && r.op != EQUALS
    requires MeetsRule(size, r, t)
    ensures AllowedCombination(size, r.op, r.target, |r.cells|, c)
    ensures multiset(t) == multiset(c)
  {
    c := [Smaller(t[0], t[1]), Larger(t[0], t[1])];
    assert t == [t[0], t[1]];
    assert t[0] in t && t[1] in t;
  }

  /** A tuple is kept when it is a fitting ordering of some allowed
      combination. */
  lemma InPareSet(size: int, poss: Poss, r: Rule, t: seq<int>)
    requires Enumerable(r) && OnBoard(size, poss, r.cells)
    ensures var C := PossibleValues(size, r.op, r.target, |r.cells|).value;
      t in PareSet(size, poss, r) <==> exists k :: 0 <= k < |C| && t in FittingOrders(size, poss, r.cells, C[k])
  {
    var parts := PareParts(size, poss, r);
    LexLessOrder();
    assert t in PareSet(size, poss, r) <==> exists k :: 0 <= k < |parts| && t in parts[k];
  }

  /** Every kept tuple meets the rule and fits. */
  lemma PareSetSound(size: int, poss: Poss, r: Rule, t: seq<int>)
    requires Enumerable(r) && OnBoard(size, poss, r.cells)
    requires t in PareSet(size, poss, r)
    ensures MeetsRule(size, r, t) && Fits(size, poss, r.cells, t)
  {
    var C := PossibleValues(size, r.op, r.target, |r.cells|).value;
    InPareSet(size, poss, r, t);
    var k :| 0 <= k < |C| && t in FittingOrders(size, poss, r.cells, C[k]);
    assert t in Perms(C[k]) && |t| == |r.cells| && Fits(size, poss, r.cells, t);
    InPerms(C[k], t);
    PossibleValuesMeans(size, r.op, r.target, |r.cells|, C[k]);
    OrderingMeetsRule(size, r, C[k], t);
  }

  /** Every tuple that meets the rule and fits is kept. */
  lemma PareSetComplete(size: int, poss: Poss, r: Rule, t: seq<int>)
    requires Enumerable(r) && OnBoard(size, poss, r.cells)
    requires MeetsRule(size, r, t) && Fits(size, poss, r.cells, t)
    ensures t in PareSet(size, poss, r)
  {
    var C := PossibleValues(size, r.op, r.target, |r.cells|).value;
    var c := MeetsRuleOrdering(size, r, t);
    PossibleValuesMeans(size, r.op, r.target, |r.cells|, c);
    var k :| 0 <= k < |C| && C[k] == c;
    InPerms(c, t);
    assert t in FittingOrders(size, poss, r.cells, C[k]);
    InPareSet(size, poss, r, t);
  }

  /**
   * `pareValues` keeps, for rule r, exactly the value tuples that meet
   * the rule and fit the cells under the current candidates, each once,
   * in increasing order.
   */
  lemma PareSetMeans(size: int, poss: Poss, r: Rule, t: seq<int>)
    requires Enumerable(r) && OnBoard(size, poss, r.cells)
    ensures StrictlyIncreasing(PareSet(size, poss, r), LexLess)
    ensures t in PareSet(size, poss, r) <==> MeetsRule(size, r, t) && Fits(size, poss, r.cells, t)
  {
    LexLessOrder();
    if t in PareSet(size, poss, r) {
      PareSetSound(size, poss, r, t);
    }
    if MeetsRule(size, r, t) && Fits(size, poss, r.cells, t) {
      PareSetComplete(size, poss, r, t);
    }
  }

  // -----------------------------------------------------------------------
  // pareValues
  // -----------------------------------------------------------------------

  /** `pareValues` on one rule: its cage gets the kept tuples
      (`updateSolveAndPoss`) and its cells the candidates re-derived from
      them. */
  function PareRule(size: int, st: St, r: Rule): St
    requires Enumerable(r) && OnBoard(size, st.poss, r.cells)
  {
    UpdateCage(st, r.cells, PareSet(size, st.poss, r))
  }

  /** Rules the solver can pare on a board of the given size. */
  ghost predicate ParableRules(size: int, rules: seq<Rule>) {
    forall r :: r in rules ==> Enumerable(r) && NoDup(r.cells) && forall c :: c in r.cells ==> c in Grid(size)
  }

  /** Paring one rule keeps the set of cells with candidate lists. */
  lemma PareRuleKeys(size: int, st: St, r: Rule)
    requires Enumerable(r) && OnBoard(size, st.poss, r.cells) && NoDup(r.cells)
    ensures PareRule(size, st, r).poss.Keys == st.poss.Keys
  {
    RederiveMeans(st.poss, r.cells, PareSet(size, st.poss, r));
  }

  /** `pareValues`: paring the rules one after the other, in list order. */
  function PareAll(size: int, st: St, rules: seq<Rule>): (r: St)
    requires ParableRules(size, rules) && Grid(size) <= st.poss.Keys
    ensures r.poss.Keys == st.poss.Keys
    ensures RulesInTable(st, rules) ==> r.solve.Keys == st.solve.Keys
  {
    if rules == [] then st
    else
      var prev := PareAll(size, st, rules[..|rules| - 1]);
      var last := rules[|rules| - 1];
      assert forall q :: q in rules[..|rules| - 1] ==> q in rules;
      PareRuleKeys(size, prev, last);
      PareRule(size, prev, last)
  }

  /** Paring only takes candidates away: every kept value was a candidate
      of its cell. */
  lemma PareRuleShrinks(size: int, st: St, r: Rule)
    requires Enumerable(r) && OnBoard(size, st.poss, r.cells) && NoDup(r.cells)
    ensures Shrinks(st.poss, PareRule(size, st, r).poss)
  {
    PareSetInPoss(size, st.poss, r);
    UpdateCageShrinks(st, r.cells, PareSet(size, st.poss, r));
  }

  /** Every kept tuple puts candidates of the cells in them. */
  lemma PareSetInPoss(size: int, poss: Poss, r: Rule)
    requires Enumerable(r) && OnBoard(size, poss, r.cells)
    ensures forall c :: c in r.cells ==> c in poss
    ensures forall t, i :: t in PareSet(size, poss, r) && 0 <= i < |r.cells| ==> t[i] in poss[r.cells[i]]
  {
    forall t | t in PareSet(size, poss, r) ensures forall i :: 0 <= i < |r.cells| ==> t[i] in poss[r.cells[i]] {
      PareSetSound(size, poss, r, t);
      FitsMeans(size, poss, r.cells, t);
    }
  }

  /** Paring gives rule r tuples that meet it. */
  lemma PareRuleMeets(size: int, st: St, r: Rule)
    requires Enumerable(r) && OnBoard(size, st.poss, r.cells)
    ensures TuplesMeet(size, r, PareRule(size, st, r).solve[r.cells])
  {
    forall t | t in PareRule(size, st, r).solve[r.cells] ensures MeetsRule(size, r, t) {
      PareSetSound(size, st.poss, r, t);
    }
  }
  /** Every rule's cage is a key of the assignment table. */
  ghost predicate RulesInTable(st: St, rules: seq<Rule>) {
    forall r :: r in rules ==> r.cells in st.solve
  }

  /** No two rules share a cage. */
  ghost predicate CagesDistinct(rules: seq<Rule>) {
    forall i, j :: 0 <= i < j < |rules| ==> rules[i].cells != rules[j].cells
  }

  /** Every tuple kept for a rule meets that rule. */
  ghost predicate TuplesMeetRules(size: int, st: St, rules: seq<Rule>)
    requires RulesInTable(st, rules)
  {
    forall r :: r in rules ==> TuplesMeet(size, r, st.solve[r.cells])
  }

  /** Every tuple of S meets rule r. */
  ghost predicate TuplesMeet(size: int, r: Rule, S: seq<seq<int>>) {
    forall t :: t in S ==> MeetsRule(size, r, t)
  }

  /** One step of `pareValues`, on a well-formed state: what the state
      keeps and what it gains. */
  lemma PareRuleMeans(size: int, st: St, r: Rule)
    requires WellFormed(size, st) && r.cells in st.solve
    requires Enumerable(r) && OnBoard(size, st.poss, r.cells) && NoDup(r.cells)
    ensures var nw := PareRule(size, st, r);
      && WellFormed(size, nw)
      && nw.solve.Keys == st.solve.Keys
      && Shrinks(st.poss, nw.poss)
      && ConsistentAt(nw, r.cells)
      && (forall K :: K in st.solve && ConsistentAt(st, K) ==> ConsistentAt(nw, K))
      && (forall K :: K in st.solve && K != r.cells ==> nw.solve[K] == st.solve[K])
      && TuplesMeet(size, r, nw.solve[r.cells])
  {
    var S := PareSet(size, st.poss, r);
    UpdateCageWellFormed(size, st, r.cells, S);
    PareRuleShrinks(size, st, r);
    UpdateCageConsistent(size, st, r.cells, S, r.cells);
    forall K | K in st.solve && ConsistentAt(st, K) ensures ConsistentAt(PareRule(size, st, r), K) {
      UpdateCageConsistent(size, st, r.cells, S, K);
    }
    PareRuleMeets(size, st, r);
  }

  /** `pareValues` keeps the state well formed and its cages, and only
      takes candidates away. */
  lemma {:induction false} PareAllWellFormed(size: int, st: St, rules: seq<Rule>)
    requires WellFormed(size, st) && ParableRules(size, rules) && RulesInTable(st, rules)
    ensures var nw := PareAll(size, st, rules);
      && WellFormed(size, nw)
      && nw.solve.Keys == st.solve.Keys
      && Shrinks(st.poss, nw.poss)
  {
    if rules != [] {
      var init := rules[..|rules| - 1];
      var last := rules[|rules| - 1];
      assert forall r :: r in init ==> r in rules;
      PareAllWellFormed(size, st, init);
      var prev := PareAll(size, st, init);
      PareRuleMeans(size, prev, last);
      ShrinksTrans(st.poss, prev.poss, PareAll(size, st, rules).poss);
    }
  }

  /** After `pareValues` every rule's cage is consistent, and every other
      cage that was consistent still is. */
  lemma {:induction false} PareAllConsistent(size: int, st: St, rules: seq<Rule>)
    requires WellFormed(size, st) && ParableRules(size, rules) && RulesInTable(st, rules)
    ensures PareAll(size, st, rules).solve.Keys == st.solve.Keys
    ensures WellFormed(size, PareAll(size, st, rules))
    ensures forall r :: r in rules ==> ConsistentAt(PareAll(size, st, rules), r.cells)
    ensures forall K :: K in st.solve && ConsistentAt(st, K) ==> ConsistentAt(PareAll(size, st, rules), K)
  {
    PareAllWellFormed(size, st, rules);
    if rules != [] {
      var init := rules[..|rules| - 1];
      var last := rules[|rules| - 1];
      assert forall r :: r in init ==> r in rules;
      PareAllConsistent(size, st, init);
      PareAllWellFormed(size, st, init);
      var prev := PareAll(size, st, init);
      PareRuleMeans(size, prev, last);
      forall r | r in rules ensures ConsistentAt(PareAll(size, st, rules), r.cells) {
        if r != last {
          assert r in init;
        }
      }
    }
  }

  /** The step of the induction below, on any two states: the last rule
      meets its new tuples, and the others keep theirs. */
  lemma MeetsStep(size: int, prev: St, nw: St, rules: seq<Rule>)
    requires rules != [] && CagesDistinct(rules)
    requires RulesInTable(prev, rules) && nw.solve.Keys == prev.solve.Keys
    requires TuplesMeetRules(size, prev, rules[..|rules| - 1])
    requires TuplesMeet(size, rules[|rules| - 1], nw.solve[rules[|rules| - 1].cells])
    requires forall K :: K in prev.solve && K != rules[|rules| - 1].cells ==> nw.solve[K] == prev.solve[K]
    ensures TuplesMeetRules(size, nw, rules)
  {
    var last := rules[|rules| - 1];
    forall r | r in rules ensures TuplesMeet(size, r, nw.solve[r.cells]) {
      var i :| 0 <= i < |rules| && rules[i] == r;
      if i < |rules| - 1 {
        assert r in rules[..|rules| - 1];
      }
    }
  }

  /** When no two rules share a cage, every tuple `pareValues` keeps for a
      rule meets that rule. */
  lemma {:induction false} PareAllMeets(size: int, st: St, rules: seq<Rule>)
    requires WellFormed(size, st) && ParableRules(size, rules) && RulesInTable(st, rules)
    requires CagesDistinct(rules)
    ensures PareAll(size, st, rules).solve.Keys == st.solve.Keys
    ensures TuplesMeetRules(size, PareAll(size, st, rules), rules)
  {
    if rules != [] {
      var init := rules[..|rules| - 1];
      var last := rules[|rules| - 1];
      assert forall r :: r in init ==> r in rules;
      assert CagesDistinct(init);
      PareAllMeets(size, st, init);
      var prev := PareAll(size, st, init);
      var nw := PareAll(size, st, rules);
      assert last in rules && OnBoard(size, prev.poss, last.cells);
      PareRuleMeets(size, prev, last);
      assert nw == PareRule(size, prev, last);
      MeetsStep(size, prev, nw, rules);
    }
  }
}
