/**
 * The puzzles the generator builds and the solver's demands on its input:
 * a `KenKen` built by `randomKenKenInit` around the fixed Latin square from
 * a partition of the 9 x 9 board gives tables and rules the solver accepts,
 * and from which no cycle of `solveKenKen` lets a candidate list grow.
 */
module GeneratedPuzzle {
  import opened Lists
  import opened KenKenClass
  import opened KenKenCage
  import opened LatinSquare
  import opened SolverSpec
  import opened Enumerator
  import opened Reductions
  import opened SolveKenKen

  /** What a partition of the n x n board gives the generator: non-empty
      cages of distinct board cells, no cell in two cages. */
  ghost predicate Cut(n: int, cages: seq<seq<Cell>>) {
    && (forall k :: 0 <= k < |cages| ==> cages[k] != [] && NoDup(cages[k]))
    && (forall k, c :: 0 <= k < |cages| && c in cages[k] ==> 0 <= c.0 < n && 0 <= c.1 < n)
    && (forall j, k, c :: 0 <= j < |cages| && 0 <= k < |cages| && c in cages[j] && c in cages[k] ==> j == k)
  }

  /** The cages of a 9 x 9 board and the operations drawn for them, as
      `KenKen`'s constructor takes them. */
  ghost predicate Drawn(cages: seq<seq<Cell>>, choice: seq<int>) {
    && |choice| == |cages| && Cut(9, cages)
    && forall k :: 0 <= k < |cages| ==> ChoiceInRange(cages[k], choice[k])
  }

  /** A 9 x 9 square of values 1..9 none of whose rows or columns repeats
      a value: what the generator needs of its hidden solution. */
  ghost predicate Nine(sol: seq<seq<int>>) {
    && |sol| == 9 && (forall i :: 0 <= i < 9 ==> |sol[i]| == 9)
    && (forall i, j :: 0 <= i < 9 && 0 <= j < 9 ==> 1 <= sol[i][j] <= 9)
    && (forall i, j, k :: 0 <= i < 9 && 0 <= j < k < 9 ==> sol[i][j] != sol[i][k])
    && (forall i, k, j :: 0 <= i < k < 9 && 0 <= j < 9 ==> sol[i][j] != sol[k][j])
  }

  /** The square `randomLatinSquare` returns is such a square. */
  lemma RandomSquareNine()
    ensures Nine(RandomLatinSquare(9))
  {
    NotSoRandomEntries();
    NotSoRandomDistinct();
  }

  /** The cages of the 9 x 9 board fit a 9 x 9 square of positive values. */
  lemma DrawnFits(sol: seq<seq<int>>, cages: seq<seq<Cell>>, choice: seq<int>)
    requires Nine(sol) && Drawn(cages, choice)
    ensures forall k :: 0 <= k < |cages| ==>
      InSquare(sol, cages[k]) && DivisorNonZero(sol, cages[k], choice[k])
  {
    forall k | 0 <= k < |cages| && |cages[k]| == 2 ensures 1 <= sol[cages[k][0].0][cages[k][0].1] && 1 <= sol[cages[k][1].0][cages[k][1].1] {
      assert cages[k][0] in cages[k] && cages[k][1] in cages[k];
    }
  }

  /** A partition of the board is such a cut: its cages list distinct
      board cells, and two cages that share a cell are the same cage. */
  lemma PartitionCut(n: int, cages: seq<seq<Cell>>)
    requires Partition(cages, n)
    ensures Cut(n, cages)
  {
    forall k | 0 <= k < |cages| ensures cages[k] != [] && NoDup(cages[k]) {
      CageOfPartition(n, cages, k);
    }
    forall k, c | 0 <= k < |cages| && c in cages[k] ensures 0 <= c.0 < n && 0 <= c.1 < n {
      PartitionMeans(cages, n, c);
    }
    forall j, k, c | 0 <= j < |cages| && 0 <= k < |cages| && c in cages[j] && c in cages[k] ensures j == k {
      PartitionMeans(cages, n, c);
    }
  }

  /** A cage of a partition lists distinct cells. */
  lemma CageOfPartition(n: int, cages: seq<seq<Cell>>, k: nat)
    requires Partition(cages, n) && k < |cages|
    ensures cages[k] != [] && NoDup(cages[k])
  {
    assert cages[k] in cages;
    forall p, q | 0 <= p < q < |cages[k]| ensures cages[k][p] != cages[k][q] {
      PartitionMeans(cages, n, cages[k][p]);
      RepeatCounted(cages[k], p, q);
    }
  }

  /** A value at two positions of a sequence is counted twice there. */
  lemma RepeatCounted<T>(s: seq<T>, p: nat, q: nat)
    requires p < q < |s|
    ensures s[p] == s[q] ==> multiset(s)[s[p]] >= 2
  {
    assert s == s[..q] + [s[q]] + s[q + 1..];
    assert s[p] in s[..q];
  }

  /** Every rule of the generated list is the rule of one of the cages. */
  lemma RuleOfCage(sol: seq<seq<int>>, cages: seq<seq<Cell>>, choice: seq<int>, rules: seq<Rule>, r: Rule) returns (k: nat)
    requires Drawn(cages, choice)
    requires forall k :: 0 <= k < |cages| ==>
      InSquare(sol, cages[k]) && DivisorNonZero(sol, cages[k], choice[k])
    requires RulesFor(rules, sol, cages, choice)
    requires r in rules
    ensures k < |cages| && r == RuleFor(sol, cages[k], choice[k])
  {
    var i :| 0 <= i < |rules| && rules[i] == r;
    k := i;
  }

  /** A generated rule is EQUALS exactly for a one-cell cage, whose target
      is the cell's solution value; any other rule can be enumerated. */
  lemma GeneratedRuleShape(sol: seq<seq<int>>, cages: seq<seq<Cell>>, choice: seq<int>, k: nat)
    requires Drawn(cages, choice) && k < |cages|
    requires InSquare(sol, cages[k]) && DivisorNonZero(sol, cages[k], choice[k])
    ensures var r := RuleFor(sol, cages[k], choice[k]);
      && r.cells == cages[k]
      && (r.op == EQUALS <==> |cages[k]| == 1)
      && (r.op != EQUALS ==> Enumerable(r))
      && (r.op == EQUALS ==>
            0 <= cages[k][0].0 < 9 && 0 <= cages[k][0].1 < 9 && r.target == sol[cages[k][0].0][cages[k][0].1])
  {
    var r := RuleFor(sol, cages[k], choice[k]);
    if |cages[k]| == 1 {
      assert cages[k][0] in cages[k];
    }
  }

  /**
   * The tables and rules of a puzzle built from a partition of the 9 x 9
   * board: the candidate table of `possDicInit`, one empty assignment list
   * per rule (`solveDicInit`) and the rules of `createRules` are well
   * formed, fit the solver, and are fresh: every cage is a rule's, every
   * EQUALS target is a candidate of its cell, and two EQUALS rules on one
   * line have different targets.
   */
  lemma GeneratedTablesReady(sol: seq<seq<int>>, cages: seq<seq<Cell>>, choice: seq<int>, rules: seq<Rule>, solve: Solve)
    requires Nine(sol) && Drawn(cages, choice)
    requires forall k :: 0 <= k < |cages| ==>
      InSquare(sol, cages[k]) && DivisorNonZero(sol, cages[k], choice[k])
    requires RulesFor(rules, sol, cages, choice)
    requires solve.Keys == (set r | r in rules :: r.cells) && forall K :: K in solve ==> solve[K] == []
    ensures WellFormed(9, St(FullCandidates(), solve))
    ensures RulesShaped(9, St(FullCandidates(), solve), rules)
    ensures FreshTables(St(FullCandidates(), solve), rules)
  {
    var st := St(FullCandidates(), solve);
    GeneratedCages(sol, cages, choice, rules, solve);
    assert StrictlyIncreasing([1, 2, 3, 4, 5, 6, 7, 8, 9], IntLess);
    forall r | r in rules
      ensures && NoDup(r.cells) && (forall c :: c in r.cells ==> c in Grid(9))
              && (if r.op == EQUALS then |r.cells| == 1 else Enumerable(r))
    {
      var k := RuleOfCage(sol, cages, choice, rules, r);
      GeneratedRuleShape(sol, cages, choice, k);
      forall c | c in r.cells ensures c in Grid(9) {
        InGrid(9, c);
      }
    }
    GeneratedSingles(sol, cages, choice, rules);
  }

  /** The assignment table's cages are the rules' cages: distinct board
      cells, no cell in two of them. */
  lemma GeneratedCages(sol: seq<seq<int>>, cages: seq<seq<Cell>>, choice: seq<int>, rules: seq<Rule>, solve: Solve)
    requires Drawn(cages, choice)
    requires forall k :: 0 <= k < |cages| ==>
      InSquare(sol, cages[k]) && DivisorNonZero(sol, cages[k], choice[k])
    requires RulesFor(rules, sol, cages, choice)
    requires solve.Keys == (set r | r in rules :: r.cells)
    ensures forall K :: K in solve ==> NoDup(K) && forall c :: c in K ==> c in Grid(9)
    ensures Disjoint(solve)
    ensures CagesOfRules(St(FullCandidates(), solve), rules)
  {
    forall K | K in solve ensures exists k :: 0 <= k < |cages| && K == cages[k] {
      var r :| r in rules && r.cells == K;
      var k := RuleOfCage(sol, cages, choice, rules, r);
    }
    forall K | K in solve ensures NoDup(K) && forall c :: c in K ==> c in Grid(9) {
      var k :| 0 <= k < |cages| && K == cages[k];
      forall c | c in K ensures c in Grid(9) {
        InGrid(9, c);
      }
    }
    forall K1, K2, c | K1 in solve && K2 in solve && c in K1 && c in K2 ensures K1 == K2 {
      var j :| 0 <= j < |cages| && K1 == cages[j];
      var k :| 0 <= k < |cages| && K2 == cages[k];
    }
  }

  /** The EQUALS rules of a generated puzzle hold solution values, so they
      are candidates of [1..9], and two on one line differ. */
  lemma GeneratedSingles(sol: seq<seq<int>>, cages: seq<seq<Cell>>, choice: seq<int>, rules: seq<Rule>)
    requires Nine(sol) && Drawn(cages, choice)
    requires forall k :: 0 <= k < |cages| ==>
      InSquare(sol, cages[k]) && DivisorNonZero(sol, cages[k], choice[k])
    requires RulesFor(rules, sol, cages, choice)
    ensures SinglesApart(EqualsRules(rules))
    ensures TargetsAllowed(FullCandidates(), EqualsRules(rules))
  {
    var eqs := EqualsRules(rules);
    forall r | r in eqs
      ensures |r.cells| == 1 && 0 <= r.cells[0].0 < 9 && 0 <= r.cells[0].1 < 9
      ensures r.target == sol[r.cells[0].0][r.cells[0].1]
    {
      var k := RuleOfCage(sol, cages, choice, rules, r);
      GeneratedRuleShape(sol, cages, choice, k);
    }
    SquareSingles(sol, eqs);
  }

  /** One-cell rules whose targets are the values of a 9 x 9 square at
      their cells. */
  ghost predicate ReadSquare(sol: seq<seq<int>>, eqs: seq<Rule>) {
    && Nine(sol)
    && forall r :: r in eqs ==>
         && |r.cells| == 1 && 0 <= r.cells[0].0 < 9 && 0 <= r.cells[0].1 < 9
         && r.target == sol[r.cells[0].0][r.cells[0].1]
  }

  /** Targets read off a square none of whose rows or columns repeats are
      candidates of [1..9], agree on a shared cell and differ on a line. */
  lemma SquareSingles(sol: seq<seq<int>>, eqs: seq<Rule>)
    requires ReadSquare(sol, eqs)
    ensures SinglesApart(eqs)
    ensures TargetsAllowed(FullCandidates(), eqs)
  {
    forall r | r in eqs ensures r.cells[0] in FullCandidates() && r.target in FullCandidates()[r.cells[0]] {
      InGrid(9, r.cells[0]);
    }
    forall r1, r2 | r1 in eqs && r2 in eqs
      ensures Struck(r1.cells[0], r2.cells[0]) ==> r1.target != r2.target
    {
      SquareApart(sol, r1.cells[0], r2.cells[0]);
    }
  }

  /** Two cells on one row or column of such a square hold different values. */
  lemma SquareApart(sol: seq<seq<int>>, c1: Cell, c2: Cell)
    requires Nine(sol) && 0 <= c1.0 < 9 && 0 <= c1.1 < 9 && 0 <= c2.0 < 9 && 0 <= c2.1 < 9
    ensures Struck(c1, c2) ==> sol[c1.0][c1.1] != sol[c2.0][c2.1]
  {
    if Struck(c1, c2) {
      if c1.0 == c2.0 {
        if c1.1 < c2.1 {
          assert sol[c1.0][c1.1] != sol[c1.0][c2.1];
        } else {
          assert sol[c1.0][c2.1] != sol[c1.0][c1.1];
        }
      } else if c1.0 < c2.0 {
        assert sol[c1.0][c1.1] != sol[c2.0][c1.1];
      } else {
        assert sol[c2.0][c1.1] != sol[c1.0][c1.1];
      }
    }
  }

  /**
   * The program's way to a solver: a `KenKen` built around the fixed Latin
   * square from cages that cut the 9 x 9 board (`randomKenKenInit`), then a
   * `KenKenSolver` on it. The solver is valid, of size 9, and starts from
   * fresh tables, so every cycle of `solveKenKen` keeps its candidate lists
   * from growing (`CyclesShrink`).
   */
  method NewSolver(cages: seq<seq<Cell>>, choice: seq<int>) returns (s: KenKenSolver)
    requires Drawn(cages, choice)
    ensures fresh(s) && fresh(s.k) && s.size == 9 && s.Valid()
    ensures s.possDic == FullCandidates()
    ensures FreshTables(s.State(), s.ruleList)
  {
    var sol := RandomLatinSquare(9);
    RandomSquareNine();
    DrawnFits(sol, cages, choice);
    var k := new KenKen(9, cages, choice);
    GeneratedTablesReady(sol, cages, choice, k.ruleList, k.solveDic);
    s := new KenKenSolver(k);
  }
}
