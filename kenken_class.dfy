/**
 * The puzzle object: a hidden Latin-square solution, a list of cage rules
 * (cells, operation, target) derived from it, the candidate table
 * (`possDic`, cell -> sorted candidate values), the assignment table
 * (`solveDic`, cage cells -> value tuples) and the numbers shown on the
 * board.
 */
module KenKenClass {
  import opened Lists
  import opened Itertools
  import LatinSquare

  // Operation tags of a rule.
  const EQUALS := 0
  const PLUS := 1
  const TIMES := 2
  const MINUS := 3
  const DIVIDE := 4

  /** A board position (i, j), both coordinates counted from 0. */
  type Cell = (int, int)

  /** A cage rule `(cells, operation, target)`. */
  datatype Rule = Rule(cells: seq<Cell>, op: int, target: int)

  /** All cells (i, j) with 0 <= i, j < n. */
  function Grid(n: int): set<Cell> {
    set i, j | 0 <= i < n && 0 <= j < n :: (i, j)
  }

  lemma InGrid(n: int, c: Cell)
    ensures c in Grid(n) <==> 0 <= c.0 < n && 0 <= c.1 < n
  {
    if 0 <= c.0 < n && 0 <= c.1 < n {
      assert (c.0, c.1) in Grid(n);
    }
  }

  function Smaller(a: int, b: int): int { if a <= b then a else b }
  function Larger(a: int, b: int): int { if a <= b then b else a }

  /**
   * Values `vals`, placed in a cage's cells in cell order, meet the
   * rule's arithmetic. As the solver reads the tags, every tag other than
   * EQUALS, PLUS, TIMES and MINUS means division.
   */
  predicate Satisfies(op: int, target: int, vals: seq<int>) {
    if op == EQUALS then vals == [target]
    else if op == PLUS then Sum(vals) == target
    else if op == TIMES then Product(vals) == target
    else if op == MINUS then |vals| == 2 && Larger(vals[0], vals[1]) - Smaller(vals[0], vals[1]) == target
    else |vals| == 2 && Larger(vals[0], vals[1]) == target * Smaller(vals[0], vals[1])
  }

  /** Every cell of the cage is a position of the square. */
  ghost predicate InSquare(solution: seq<seq<int>>, cage: seq<Cell>) {
    forall c :: c in cage ==> 0 <= c.0 < |solution| && 0 <= c.1 < |solution[c.0]|
  }

  /** The solution's values at the cage's cells, in cage order. */
  function CageValues(solution: seq<seq<int>>, cage: seq<Cell>): (r: seq<int>)
    requires InSquare(solution, cage)
    ensures |r| == |cage|
    ensures forall k :: 0 <= k < |cage| ==> r[k] == solution[cage[k].0][cage[k].1]
  {
    seq(|cage|, k requires 0 <= k < |cage| => solution[cage[k].0][cage[k].1])
  }

  /** What `random.randint` may return for a cage: 1..4 for two cells,
      1..2 for any other cage of more than one cell. */
  predicate ChoiceInRange(cage: seq<Cell>, choice: int) {
    if |cage| == 1 then true
    else if |cage| == 2 then 1 <= choice <= 4
    else 1 <= choice <= 2
  }

  /** The division of a two-cell cage needs a nonzero smaller value. */
  ghost predicate DivisorNonZero(solution: seq<seq<int>>, cage: seq<Cell>, choice: int)
    requires InSquare(solution, cage)
  {
    |cage| == 2 && choice == DIVIDE ==>
      var v := CageValues(solution, cage);
      Smaller(v[0], v[1]) != 0
  }

  lemma InsertIntoOne(a: int, b: int)
    ensures Insert(a, [b], IntLess) == [Smaller(a, b), Larger(a, b)]
  {
    assert [b][1..] == [];
    if b < a {
      assert Insert(a, [], IntLess) == [a];
    }
  }

  lemma SortOne(b: int)
    ensures (IntLessOrder(); Sort([b], IntLess)) == [b]
  {
    IntLessOrder();
    assert [b][1..] == [];
  }

  /** A two-element list sorts to [smaller, larger]. */
  lemma SortPair(v: seq<int>)
    requires |v| == 2
    ensures (IntLessOrder(); Sort(v, IntLess)) == [Smaller(v[0], v[1]), Larger(v[0], v[1])]
  {
    IntLessOrder();
    assert v[1..] == [v[1]];
    SortOne(v[1]);
    InsertIntoOne(v[0], v[1]);
  }

  /** The rule for a two-cell cage whose sorted values are `values`. */
  function PairRule(cage: seq<Cell>, values: seq<int>, choice: int): (r: Rule)
    requires |values| == 2 && 1 <= choice <= 4 && (choice == DIVIDE ==> values[0] != 0)
    ensures r.cells == cage && r.op != EQUALS
  {
    if choice == PLUS then Rule(cage, PLUS, Sum(values))
    else if choice == MINUS then Rule(cage, MINUS, values[1] - values[0])
    else if choice == TIMES then Rule(cage, TIMES, Product(values))
    else if values[1] % values[0] == 0 then Rule(cage, DIVIDE, values[1] / values[0])
    else Rule(cage, MINUS, values[1] - values[0])
  }

  /** The targets of `PairRule` for the values a and b, sorted. */
  lemma PairRuleMeans(cage: seq<Cell>, a: int, b: int, choice: int)
    requires 1 <= choice <= 4 && (choice == DIVIDE ==> Smaller(a, b) != 0)
    ensures var lo, hi := Smaller(a, b), Larger(a, b);
      var r := PairRule(cage, [lo, hi], choice);
      && (choice == PLUS ==> r.op == PLUS && r.target == a + b)
      && (choice == TIMES ==> r.op == TIMES && r.target == a * b)
      && (choice == MINUS ==> r.op == MINUS && r.target == hi - lo)
      && (choice == DIVIDE && hi % lo == 0 ==> r.op == DIVIDE && r.target * lo == hi)
      && (choice == DIVIDE && hi % lo != 0 ==> r.op == MINUS && r.target == hi - lo)
  {
    var lo, hi := Smaller(a, b), Larger(a, b);
    SumProductPair([lo, hi]);
    assert lo + hi == a + b && lo * hi == a * b;
    if choice == DIVIDE && hi % lo == 0 {
      assert hi == (hi / lo) * lo + hi % lo;
    }
  }

  /**
   * The rule `createRules` makes for one cage, given the solution and the
   * operation drawn for the cage. The values are sorted before they are
   * combined, as the source does.
   */
  function RuleFor(solution: seq<seq<int>>, cage: seq<Cell>, choice: int): (r: Rule)
    requires InSquare(solution, cage)
    requires ChoiceInRange(cage, choice)
    requires DivisorNonZero(solution, cage, choice)
    ensures r.cells == cage
    ensures |cage| == 1 ==> r.op == EQUALS && r.target == solution[cage[0].0][cage[0].1]
    ensures |cage| != 1 && |cage| != 2 ==> r.op == PLUS || r.op == TIMES
    ensures |cage| == 2 ==> r.op != EQUALS
  {
    IntLessOrder();
    var values := Sort(CageValues(solution, cage), IntLess);
    if |cage| == 1 then
      Rule(cage, EQUALS, solution[cage[0].0][cage[0].1])
    else if |cage| == 2 then
      SortPair(CageValues(solution, cage));
      PairRule(cage, values, choice)
    else
      if choice == PLUS then Rule(cage, PLUS, Sum(values))
      else Rule(cage, TIMES, Product(values))
  }

  lemma RuleForTwo(solution: seq<seq<int>>, cage: seq<Cell>, choice: int)
    requires InSquare(solution, cage) && |cage| == 2
    requires ChoiceInRange(cage, choice)
    requires DivisorNonZero(solution, cage, choice)
    ensures var v := CageValues(solution, cage);
      RuleFor(solution, cage, choice) == PairRule(cage, [Smaller(v[0], v[1]), Larger(v[0], v[1])], choice)
  {
    SortPair(CageValues(solution, cage));
  }

  /** The targets of a two-cell cage's rule in terms of the cells' values
      a and b: sum, product, larger minus smaller, or the quotient when the
      larger is a multiple of the smaller (and the difference otherwise). */
  lemma RuleForPair(solution: seq<seq<int>>, cage: seq<Cell>, choice: int)
    requires InSquare(solution, cage) && |cage| == 2
    requires ChoiceInRange(cage, choice)
    requires DivisorNonZero(solution, cage, choice)
    ensures var a, b := solution[cage[0].0][cage[0].1], solution[cage[1].0][cage[1].1];
      var lo, hi := Smaller(a, b), Larger(a, b);
      var r := RuleFor(solution, cage, choice);
      && (choice == PLUS ==> r.op == PLUS && r.target == a + b)
      && (choice == TIMES ==> r.op == TIMES && r.target == a * b)
      && (choice == MINUS ==> r.op == MINUS && r.target == hi - lo)
      && (choice == DIVIDE && hi % lo == 0 ==> r.op == DIVIDE && r.target * lo == hi)
      && (choice == DIVIDE && hi % lo != 0 ==> r.op == MINUS && r.target == hi - lo)
  {
    var v := CageValues(solution, cage);
    assert v[0] == solution[cage[0].0][cage[0].1] && v[1] == solution[cage[1].0][cage[1].1];
    RuleForTwo(solution, cage, choice);
    PairRuleMeans(cage, v[0], v[1], choice);
  }

  /** The hidden solution meets the rule made for a cage. */
  lemma RuleForSatisfied(solution: seq<seq<int>>, cage: seq<Cell>, choice: int)
    requires InSquare(solution, cage)
    requires ChoiceInRange(cage, choice)
    requires DivisorNonZero(solution, cage, choice)
    ensures var r := RuleFor(solution, cage, choice);
      Satisfies(r.op, r.target, CageValues(solution, cage))
  {
    var v := CageValues(solution, cage);
    IntLessOrder();
    var values := Sort(v, IntLess);
    if |cage| == 1 {
      assert v == [v[0]];
    } else if |cage| == 2 {
      RuleForPair(solution, cage, choice);
      var r := RuleFor(solution, cage, choice);
      SumProductPair(v);
      if r.op == DIVIDE {
        assert r.target * Smaller(v[0], v[1]) == Larger(v[0], v[1]);
      }
    } else {
      SumProductPermutation(values, v);
    }
  }

  /** `createRules` on a cage list: one rule per cage, in cage order. */
  ghost predicate RulesFor(rules: seq<Rule>, solution: seq<seq<int>>, cages: seq<seq<Cell>>, choice: seq<int>)
    requires |choice| == |cages|
    requires forall k :: 0 <= k < |cages| ==>
      InSquare(solution, cages[k]) && ChoiceInRange(cages[k], choice[k])
      && DivisorNonZero(solution, cages[k], choice[k])
  {
    |rules| == |cages| && forall k :: 0 <= k < |cages| ==> rules[k] == RuleFor(solution, cages[k], choice[k])
  }

  /** The rules of the first k cages and then cage k's rule are those of the first k + 1. */
  lemma RulesExtend(added: seq<Rule>, solution: seq<seq<int>>, cages: seq<seq<Cell>>, choice: seq<int>, k: nat)
    requires k < |cages| == |choice|
    requires forall m :: 0 <= m < |cages| ==>
      InSquare(solution, cages[m]) && ChoiceInRange(cages[m], choice[m])
      && DivisorNonZero(solution, cages[m], choice[m])
    requires |added| == k && forall m :: 0 <= m < k ==> added[m] == RuleFor(solution, cages[m], choice[m])
    ensures var next := added + [RuleFor(solution, cages[k], choice[k])];
      forall m :: 0 <= m < k + 1 ==> next[m] == RuleFor(solution, cages[m], choice[m])
  {
  }

  /** Cell c of the 9 x 9 board comes before (i, j) in row-major order. */
  predicate Filled(c: Cell, i: int, j: int) {
    0 <= c.0 < 9 && 0 <= c.1 < 9 && LatinSquare.Before(c.0, c.1, i, j)
  }

  /** The puzzle's own candidate table: 1..9 for every cell of the 9 x 9 board. */
  function FullCandidates(): (m: map<Cell, seq<int>>)
    ensures m.Keys == Grid(9)
    ensures forall c :: c in m ==> m[c] == [1, 2, 3, 4, 5, 6, 7, 8, 9]
  {
    map c | c in Grid(9) :: [1, 2, 3, 4, 5, 6, 7, 8, 9]
  }

  /** Cages on the 9 x 9 board lie in the fixed square, whose entries are
      positive, so no division by zero can be drawn. */
  lemma CagesFitSquare(n: int, cages: seq<seq<Cell>>, choice: seq<int>)
    requires |choice| == |cages|
    requires forall k :: 0 <= k < |cages| ==>
      (forall c :: c in cages[k] ==> 0 <= c.0 < 9 && 0 <= c.1 < 9)
      && ChoiceInRange(cages[k], choice[k])
    ensures forall k :: 0 <= k < |cages| ==>
      InSquare(LatinSquare.RandomLatinSquare(n), cages[k])
      && DivisorNonZero(LatinSquare.RandomLatinSquare(n), cages[k], choice[k])
  {
    var solution := LatinSquare.RandomLatinSquare(n);
    forall k | 0 <= k < |cages| ensures InSquare(solution, cages[k]) && DivisorNonZero(solution, cages[k], choice[k]) {
      if |cages[k]| == 2 {
        var c0, c1 := cages[k][0], cages[k][1];
        assert c0 in cages[k] && c1 in cages[k];
        assert 1 <= solution[c0.0][c0.1] && 1 <= solution[c1.0][c1.1];
      }
    }
  }

  class KenKen {
    var size: int
    var ruleList: seq<Rule>
    var solution: seq<seq<int>>
    var possDic: map<Cell, seq<int>>
    var solveDic: map<seq<Cell>, seq<seq<int>>>
    var displayedNumbers: map<Cell, int>

    /**
     * A puzzle of size n built around the fixed Latin square. The cage
     * partition and the operations drawn for the cages, random in the
     * source, are arguments.
     */
    constructor (n: int, cages: seq<seq<Cell>>, choice: seq<int>)
      requires |choice| == |cages|
      requires forall k :: 0 <= k < |cages| ==>
        (forall c :: c in cages[k] ==> 0 <= c.0 < 9 && 0 <= c.1 < 9)
        && ChoiceInRange(cages[k], choice[k])
      ensures size == n
      ensures solution == LatinSquare.RandomLatinSquare(n)
      ensures RulesFor(ruleList, solution, cages, choice)
      ensures possDic == FullCandidates()
      ensures solveDic.Keys == set r | r in ruleList :: r.cells
      ensures forall key :: key in solveDic ==> solveDic[key] == []
      ensures displayedNumbers == map[]
    {
      var sol := LatinSquare.RandomLatinSquare(n);
      size := n;
      ruleList := [];
      solution := sol;
      possDic := map[];
      solveDic := map[];
      displayedNumbers := map[];
      new;
      CagesFitSquare(n, cages, choice);
      Build(cages, choice);
    }

    /** The constructor's work on the empty tables: the rules, then the candidate and assignment tables. */
    method Build(cages: seq<seq<Cell>>, choice: seq<int>)
      requires |choice| == |cages|
      requires forall k :: 0 <= k < |cages| ==>
        InSquare(solution, cages[k]) && ChoiceInRange(cages[k], choice[k])
        && DivisorNonZero(solution, cages[k], choice[k])
      requires ruleList == [] && possDic == map[] && solveDic == map[]
      modifies this`ruleList, this`possDic, this`solveDic
      ensures RulesFor(ruleList, solution, cages, choice)
      ensures possDic == FullCandidates()
      ensures solveDic.Keys == set r | r in ruleList :: r.cells
      ensures forall key :: key in solveDic ==> solveDic[key] == []
    {
      CreateRules(cages, choice);
      assert ruleList[0..] == ruleList;
      ghost var rules := ruleList;
      PossDicInit();
      assert ruleList == rules && solveDic == map[];
      ghost var cands := possDic;
      SolveDicInit();
      assert ruleList == rules && possDic == cands;
      assert solveDic.Keys == set r | r in rules :: r.cells;
    }

    /** `createRules`: appends the rule of every cage, in order. */
    method CreateRules(cages: seq<seq<Cell>>, choice: seq<int>)
      requires |choice| == |cages|
      requires forall k :: 0 <= k < |cages| ==>
        InSquare(solution, cages[k]) && ChoiceInRange(cages[k], choice[k])
        && DivisorNonZero(solution, cages[k], choice[k])
      modifies this`ruleList
      ensures |ruleList| == |old(ruleList)| + |cages| && ruleList[..|old(ruleList)|] == old(ruleList)
      ensures RulesFor(ruleList[|old(ruleList)|..], solution, cages, choice)
    {
      ghost var start := ruleList;
      ghost var added: seq<Rule> := [];
      var sol := solution;
      var k := 0;
      while k < |cages|
        invariant 0 <= k <= |cages| && sol == solution
        invariant ruleList == start + added && |added| == k
        invariant forall m :: 0 <= m < k ==> added[m] == RuleFor(sol, cages[m], choice[m])
      {
        var r := RuleFor(sol, cages[k], choice[k]);
        RulesExtend(added, sol, cages, choice, k);
        ruleList := ruleList + [r];
        added := added + [r];
        k := k + 1;
      }
      assert ruleList[..|start|] == start && ruleList[|start|..] == added;
    }

    /** `solveDicInit`: one empty assignment list per rule, keyed by the
        rule's cells. */
    method SolveDicInit()
      modifies this`solveDic
      ensures solveDic.Keys == old(solveDic).Keys + set r | r in ruleList :: r.cells
      ensures forall key :: key in solveDic ==>
        solveDic[key] == if key in set r | r in ruleList :: r.cells then [] else old(solveDic)[key]
    {
      var rules := ruleList;
      var k := 0;
      while k < |rules|
        invariant 0 <= k <= |rules|
        invariant solveDic.Keys == old(solveDic).Keys + set m | 0 <= m < k :: rules[m].cells
        invariant forall key :: key in solveDic ==>
          solveDic[key] == if key in set m | 0 <= m < k :: rules[m].cells then [] else old(solveDic)[key]
      {
        solveDic := solveDic[rules[k].cells := []];
        k := k + 1;
      }
      assert (set m | 0 <= m < |rules| :: rules[m].cells) == set r | r in rules :: r.cells;
    }

    /** `possDicInit`: every cell of the 9 x 9 board gets the candidates 1..9. */
    method PossDicInit()
      modifies this`possDic
      ensures possDic == old(possDic) + FullCandidates()
    {
      var i := 0;
      while i < 9
        invariant 0 <= i <= 9
        invariant forall c :: c in possDic <==> c in old(possDic) || Filled(c, i, 0)
        invariant forall c :: c in possDic ==>
          possDic[c] == if Filled(c, i, 0) then [1, 2, 3, 4, 5, 6, 7, 8, 9] else old(possDic)[c]
      {
        var j := 0;
        while j < 9
          invariant 0 <= j <= 9
          invariant forall c :: c in possDic <==> c in old(possDic) || Filled(c, i, j)
          invariant forall c :: c in possDic ==>
            possDic[c] == if Filled(c, i, j) then [1, 2, 3, 4, 5, 6, 7, 8, 9] else old(possDic)[c]
        {
          possDic := possDic[(i, j) := [1, 2, 3, 4, 5, 6, 7, 8, 9]];
          j := j + 1;
        }
        i := i + 1;
      }
      forall c ensures c in FullCandidates() <==> Filled(c, 9, 0) { InGrid(9, c); }
    }

    /** `removePossValue`: the first occurrence of the value leaves the
        cell's list; a missing value or cell changes nothing. */
    method RemovePossValue(node: Cell, value: int)
      modifies this
      ensures node in old(possDic) ==> possDic == old(possDic)[node := RemoveFirst(old(possDic)[node], value)]
      ensures node !in old(possDic) ==> possDic == old(possDic)
      ensures size == old(size) && ruleList == old(ruleList) && solution == old(solution)
      ensures solveDic == old(solveDic) && displayedNumbers == old(displayedNumbers)
    {
      if node in possDic {
        possDic := possDic[node := RemoveFirst(possDic[node], value)];
      }
    }

    /** `updateSolveDic`: the given entries overwrite the table's. */
    method UpdateSolveDic(d: map<seq<Cell>, seq<seq<int>>>)
      modifies this`solveDic
      ensures solveDic == old(solveDic) + d
    {
      solveDic := solveDic + d;
    }

    /** `updatePossDic`: the given entries overwrite the table's, and every
        given entry with exactly one value is shown on the board. */
    method UpdatePossDic(d: map<Cell, seq<int>>)
      modifies this`possDic, this`displayedNumbers
      ensures possDic == old(possDic) + d
      ensures displayedNumbers.Keys == old(displayedNumbers).Keys + set n | n in d && |d[n]| == 1
      ensures forall n :: n in displayedNumbers ==>
        displayedNumbers[n] == if n in d && |d[n]| == 1 then d[n][0] else old(displayedNumbers)[n]
    {
      possDic := possDic + d;
      var todo := d.Keys;
      while todo != {}
        invariant todo <= d.Keys
        invariant possDic == old(possDic) + d
        invariant displayedNumbers.Keys == old(displayedNumbers).Keys + set n | n in d.Keys - todo && |d[n]| == 1
        invariant forall n :: n in displayedNumbers ==>
          displayedNumbers[n] == if n in d.Keys - todo && |d[n]| == 1 then d[n][0] else old(displayedNumbers)[n]
        decreases todo
      {
        var node :| node in todo;
        if |d[node]| == 1 {
          displayedNumbers := displayedNumbers[node := d[node][0]];
        }
        todo := todo - {node};
      }
    }

    /** `nodeSolved`: the cell has exactly one candidate left. */
    predicate NodeSolved(node: Cell)
      reads this
      requires node in possDic
    {
      |possDic[node]| == 1
    }

    /** The loop of `isSolved` from cell (i, j) on, in row-major order. */
    predicate IsSolvedFrom(i: int, j: int)
      reads this
      requires 0 <= i <= size && 0 <= j <= size
      requires Grid(size) <= possDic.Keys
      decreases size - i, size - j
    {
      if i == size then true
      else if j == size then IsSolvedFrom(i + 1, 0)
      else (InGrid(size, (i, j)); NodeSolved((i, j))) && IsSolvedFrom(i, j + 1)
    }

    /** `isSolved`: every cell of the size x size board has exactly one
        candidate. */
    predicate IsSolved()
      reads this
      requires 0 <= size
      requires Grid(size) <= possDic.Keys
      ensures IsSolved() <==> forall c :: c in Grid(size) ==> |possDic[c]| == 1
    {
      IsSolvedFromMeans(0, 0);
      IsSolvedFrom(0, 0)
    }

    lemma {:induction false} IsSolvedFromMeans(i: int, j: int)
      requires 0 <= i <= size && 0 <= j <= size
      requires Grid(size) <= possDic.Keys
      ensures IsSolvedFrom(i, j) <==>
        forall c :: c in Grid(size) && LatinSquare.Before(i, j, c.0, c.1 + 1) ==> |possDic[c]| == 1
      decreases size - i, size - j
    {
      if i == size {
        forall c | c in Grid(size) ensures !LatinSquare.Before(i, j, c.0, c.1 + 1) {
          InGrid(size, c);
        }
      } else if j == size {
        IsSolvedFromMeans(i + 1, 0);
        forall c | c in Grid(size) ensures LatinSquare.Before(i, j, c.0, c.1 + 1) <==> LatinSquare.Before(i + 1, 0, c.0, c.1 + 1) {
          InGrid(size, c);
        }
      } else {
        InGrid(size, (i, j));
        IsSolvedFromMeans(i, j + 1);
        forall c | c in Grid(size) ensures LatinSquare.Before(i, j, c.0, c.1 + 1) <==> c == (i, j) || LatinSquare.Before(i, j + 1, c.0, c.1 + 1) {
          InGrid(size, c);
        }
      }
    }
  }
}
