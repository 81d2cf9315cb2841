# KenKen generator and constraint-propagation solver, modelled in Dafny

This project models the core of a small KenKen program. A puzzle is an N x N grid cut into cages. Each cage carries an arithmetic rule: a fixed value, a sum, a product, a difference or a quotient, each with a target. The model covers four parts.

- **The puzzle object** (`KenKenClass`, class `KenKen`). It holds:
  - the rule list, made from a hidden Latin square by `createRules`;
  - the candidate table `possDic`, mapping cell to sorted candidate list;
  - the assignment table `solveDic`, mapping cage to value tuples;
  - the table of displayed numbers.
- **The cage generator** (`KenKenCage`, class `KenKenCage`):
  - `cageListInit` pops random roots from the free cells and grows each one into a cage (`growCage`, `findNeighbor`);
  - `consolidateCageList` then merges one-cell cages into their smallest neighbouring cage (`consolidateOneSingle`, `smallestNeighborCage`, `mergeCages`).
- **The Latin squares** (`LatinSquare`):
  - `notSoRandom`, a fixed 9 x 9 square that `randomLatinSquare` always returns;
  - the brute-force filler `bruteForceLatinSquare`.
- **The solver** (`SolveKenKen`, class `KenKenSolver`). Each cycle of `solveKenKen` runs five passes:
  - `cleanSingles` fixes one-cell cages;
  - `pareValues` re-enumerates every cage's assignments from its arithmetic (`possibleValuesForOperation`), keeping the orderings that fit the candidates (`possValOrderFits`), and re-derives the candidates (`updateSolveAndPoss`);
  - `subGroups` runs naked-subset elimination on every row and column (`reduceRow`, `reduceColumn`, `allowedValueSet`, `dropValsFromNodesRow`);
  - `necessaryRuleValues` applies the cross-cage exact-cover rule;
  - `kenkenSolved` tests whether the grid is solved.

  The loop stops when every cell has one candidate, or when a cycle leaves the total number of assignments unchanged and the answer to the prompt is "y" or empty.
- **Generated puzzles** (`GeneratedPuzzle`). A puzzle built by `randomKenKenInit` from cages that cut the 9 x 9 board gives a solver that starts from fresh tables. From there, no cycle lets a candidate list grow.

## How the model is built

The model follows the code's shape.

- **State.** What the code updates in place is a class with fields: `KenKen`, `KenKenCage` and `KenKenSolver`.
- **Methods.** Each loop of the source is a method with a `while` loop and invariants. Each method is proved against a ghost specification function, for example:
  - `PareAll`, `ApplyDrops`, `Reduce`, `NecessaryDrops` and `Cycle` for the solver;
  - `Merge`, `OneSingle`, `Consolidated` and `Search` for the cage generator.
- **Lemmas.** They state what those functions mean:
  - every kept tuple meets its rule and fits the grid, and every such tuple is kept;
  - the candidate tables stay consistent with the assignments;
  - candidate lists only shrink, pass by pass and, from the tables of a generated puzzle, cycle by cycle;
  - drops compose, so dictionary iteration order does not matter;
  - cages stay a partition of the board.
- **Supporting modules:**
  - `Lists`: `list.remove`, sorting, deduplication, orders on tuples;
  - `Itertools`: `combinations`, `combinations_with_replacement`, `permutations`, `range`;
  - `SolverSpec`: the state-level specifications of the tables;
  - `Enumerator`: the assignment enumerator;
  - `Reductions`: setting a cell equal, naked subsets and drops;
  - `Necessary` and `NecessaryRule`: the two phases of `necessaryRuleValues`.
- **Inputs that replace non-determinism.** Random draws and the interactive replies are arguments:
  - `pick`, `goal` and `order` for the cage generator;
  - `choice` for `createRules`;
  - `order` for `bruteForceLatinSquare`;
  - `replies` for the "Exit?" prompt.

Where the code and the natural reading of the design disagree, the model follows the code:

- **`possValOrderFits` and same-cage cells.** Its row and column check does not exclude cells of the same cage. A cell whose own candidates are already `[v]` still blocks `v` for every other cell on its lines, cage-mates included: `NodesFitFromMeans`, `FitsSpec`.
- **`subGroups` and cages.** Naked subsets are applied to rows and columns only. The per-cage pass does nothing, because its only statement is commented out: `KenKenSolver.SubGroups`.
- **`solveDic` is not monotone.** `pareValues` rebuilds the assignment lists from the arithmetic on every pass; it does not filter the previous lists. Only `possDic` is monotone: `PareRuleShrinks`, `ReduceInvariant`, `ApplyDropsShrinks`. Over whole cycles this needs fresh tables (`FreshTables`): every cage is a rule's, and two EQUALS rules on one line have different targets, as in a Latin square. Two EQUALS cells on one row with the same target would leave a cell with no candidate while its cage still holds (target,); the next drop re-derives the candidate, and the list grows back. From fresh tables, `CyclesShrink` proves that no list grows.
- **Operation tags.** `possibleValuesForOperation` treats any tag other than EQUALS, PLUS, TIMES and MINUS as DIVIDE, so tags are kept as integers. An EQUALS rule is an error: `PossibleValues` gives `None`.
- **`cleanSingles` and `solveDic`.** `cleanSingles` strikes the fixed value from the lines' candidate lists without touching `solveDic`. So global consistency between the two tables is not kept through it. The invariants are stated for the cages of the rules that remain.

## Model

| member | source | states |
|---|---|---|
| Lists.RemoveFirstMeans | KenKenClass.py:119-126 | `list.remove` with the error ignored: one occurrence of x goes and nothing else (multiset minus {x}); the list is unchanged when x is absent |
| Lists.RemoveFirstNoDup | KenKenCage.py:130-131 | removing from a list without repeats removes the element entirely and keeps the list repeat-free |
| Lists.Sort | SolveKenKen.py:668 | Python's `sorted`: the result is a sorted permutation of its input |
| Lists.Dedup | SolveKenKen.py:663-676 | the sorted distinct elements: strictly increasing, with exactly the input's elements |
| Lists.StrictlyIncreasingUnique | SolveKenKen.py:663-676 | a strictly increasing list is determined by its elements, so deduplication depends only on the set of elements |
| Lists.SumProductPermutation | SolveKenKen.py:154-160 | `scipy.sum` and `scipy.product` depend only on the multiset of values, so every ordering of a combination has its sum and product |
| Lists.LexLessOrder | SolveKenKen.py:135 | Python's ordering of integer tuples is a strict total order, so the sorted, deduplicated `solveSet` is well defined |
| Itertools.Range | SolveKenKen.py:155 | `range(lo, hi + 1)`: its length and every element |
| Itertools.CombinationSound | SolveKenKen.py:163 | a combination has length k and takes its elements from the list, each position at most once |
| Itertools.CombinationComplete | SolveKenKen.py:582 | every k-element set of elements of a repeat-free list is the element set of some combination of length k |
| Itertools.PairCombinations | SolveKenKen.py:163-167 | `combinations(range(lo, hi + 1), 2)` yields exactly the pairs a < b in lo..hi |
| Itertools.InCombinationsWithReplacement | SolveKenKen.py:155-159 | `combinations_with_replacement` yields exactly the non-decreasing lists of length l over lo..hi |
| Itertools.InPerms | SolveKenKen.py:124 | `permutations` yields exactly the lists with the same elements, counted with repetition |
| Itertools.Flatten | SolveKenKen.py:129-133 | an element is in the flattened list exactly when it is in one of the lists |
| LatinSquare.NotSoRandomRows | LatinSquare.py:25-34 | every row of the fixed test square is a permutation of 1..9 |
| LatinSquare.NotSoRandomColumns | LatinSquare.py:25-34 | every column of the fixed test square is a permutation of 1..9 |
| LatinSquare.NotSoRandomEntries | LatinSquare.py:25-34 | every entry of the test square lies in 1..9 |
| LatinSquare.RandomLatinSquare | LatinSquare.py:13-17 | whatever N is, the result (the fixed test square) is a 9 x 9 Latin square with entries in 1..9 |
| LatinSquare.NotSoRandomDistinct | LatinSquare.py:21-36 | no row and no column of the fixed test square repeats a value |
| LatinSquare.BruteForceLatinSquare | LatinSquare.py:39-61 | a fresh N x N array; when no cell runs out of values, every entry is in 1..N and differs from every earlier entry of its row and its column; when one does (`ok` false), some cell has every value of its shuffled list already in its row prefix or column prefix |
| LatinSquare.FillCell | LatinSquare.py:48-59 | on success, cell (i, j) gets the first entry of the shuffled list that is not already in `a[i,:j]` or `a[:i,j]`: every entry before it clashes; the row and column conditions then hold up to (i, j). `ok` is false, the source's IndexError, exactly when every entry of the list clashes, and then the cell stays 0 |
| LatinSquare.SetCell | LatinSquare.py:56 | `a[i,j] = randInt`: that cell takes the value, every other cell keeps its own, and a value already in the cell's row or column prefix stays there |
| KenKenClass.InGrid | KenKenClass.py:235-236 | a cell is on the board exactly when both coordinates are in 0..n-1 |
| KenKenClass.CageValues | KenKenClass.py:192 | the solution's values at the cage's cells, in cage order |
| KenKenClass.PairRuleMeans | KenKenClass.py:190-210 | for a two-cell cage with sorted values lo, hi, the target is the sum, the product or hi - lo; a quotient when hi is a multiple of lo, and otherwise the rule becomes MINUS with hi - lo |
| KenKenClass.RuleFor | KenKenClass.py:182-226 | one rule per cage on its own cells: EQUALS with the solution value for one cell, never EQUALS for two cells, PLUS or TIMES for three or more |
| KenKenClass.RuleForPair | KenKenClass.py:190-210 | the two-cell targets in terms of the cells' solution values a and b |
| KenKenClass.RuleForSatisfied | KenKenClass.py:176-228 | the hidden solution meets the rule made for every cage |
| KenKenClass.FullCandidates | KenKenClass.py:114-116 | every cell of the 9 x 9 board maps to the candidates 1..9, and no other cell has an entry |
| KenKenClass.CagesFitSquare | KenKenClass.py:203-206 | cages on the 9 x 9 board lie in the fixed square, whose entries are positive, so no division by zero can occur |
| KenKenClass.KenKen.constructor | KenKenClass.py:41-64 | a puzzle whose solution is the fixed square, with one rule per cage in order, full candidate lists, one empty assignment list per rule's cage and nothing displayed |
| KenKenClass.KenKen.Build | KenKenClass.py:53-61 | the rules, then the candidate and assignment tables, on the empty tables |
| KenKenClass.KenKen.CreateRules | KenKenClass.py:176-228 | the rule list gains exactly the rules of the cages, in cage order, after the rules it had |
| KenKenClass.KenKen.SolveDicInit | KenKenClass.py:102-107 | one key per rule, the rule's cells, mapped to the empty list; other keys keep their entries |
| KenKenClass.KenKen.PossDicInit | KenKenClass.py:110-116 | every cell (i, j) of 0..8 x 0..8 gets [1..9]; other keys keep their entries |
| KenKenClass.KenKen.RemovePossValue | KenKenClass.py:119-126 | the first occurrence of the value leaves the cell's list; a missing value or cell changes nothing; no other field changes |
| KenKenClass.KenKen.UpdateSolveDic | KenKenClass.py:136-141 | the given entries overwrite the table's, and the others stay |
| KenKenClass.KenKen.UpdatePossDic | KenKenClass.py:129-153 | the given entries overwrite the table's; every given entry with exactly one value is displayed as that value (`addDisplayValue`), and other displayed numbers stay |
| KenKenClass.KenKen.IsSolved | KenKenClass.py:231-247 | true exactly when every cell of the size x size board has exactly one candidate |
| KenKenClass.KenKen.IsSolvedFromMeans | KenKenClass.py:235-240 | the row-major loop from (i, j) on accepts exactly when every later cell has one candidate |
| KenKenCage.FirstStepMeans | KenKenCage.py:206-225 | after a shuffle of the four directions, the first step found is a free neighbour of the cell, and none is found exactly when the cell has no free neighbour |
| KenKenCage.FirstStepDirs | KenKenCage.py:206-225 | the first direction taken leads into the free cells, and none is found exactly when no listed direction does |
| KenKenCage.SearchMeans | KenKenCage.py:195-229 | the walk over the cage's cells from the last back finds a free neighbour of a visited cell, and finds nothing exactly when no visited cell has a free neighbour |
| KenKenCage.GrowKeeps | KenKenCage.py:150-152 | growing a connected cage into a free neighbour keeps it connected and moves that cell from the free list into the cage |
| KenKenCage.GridListCount | KenKenCage.py:57 | the initial free list holds every board cell exactly once and nothing else |
| KenKenCage.PartitionMeans | KenKenCage.py:57-65 | in a partition, every board cell lies in exactly one cage, once, and the cages hold nothing else |
| KenKenCage.AddCageKeeps | KenKenCage.py:59-65 | popping a root and growing it into a cage moves exactly the cells taken from the free list into the cage list, so cages and free cells together stay the board |
| KenKenCage.SmallestUpToMeans | KenKenCage.py:108-122 | nothing is found exactly when no cage other than [node] that touches a neighbour of node is shorter than the sentinel's 9; otherwise the cage found is the first of least length among those cages |
| KenKenCage.MergeKeepsPartition | KenKenCage.py:125-132 | merging two different cages of a partition succeeds and leaves a partition with one cage fewer |
| KenKenCage.MergeCells | KenKenCage.py:129-132 | a merge that goes through keeps every cell, counted with repeats |
| KenKenCage.FirstSingle | KenKenCage.py:94-96 | the index of the first one-cell cage, and it equals the length exactly when there is no one-cell cage |
| KenKenCage.OneSingleMeans | KenKenCage.py:90-101 | on a partition with a one-cell cage, a round succeeds exactly when that cage has a neighbouring cage shorter than the sentinel; success leaves a partition, and failure the stuck state in which the sentinel merge raised |
| KenKenCage.OneSingleShrinks | KenKenCage.py:90-101 | a round that goes through leaves one cage fewer |
| KenKenCage.ConsolidatedMeans | KenKenCage.py:79-87 | consolidation that ends normally leaves at most M one-cell cages; from a partition it leaves a partition, or the stuck state |
| KenKenCage.KenKenCage.constructor | KenKenCage.py:27-33 | the generator on an n x n board ends with a partition of the board with at most 4 one-cell cages, or in the stuck state |
| KenKenCage.KenKenCage.CageListInit | KenKenCage.py:48-67 | every free cell is popped into exactly one cage, so before consolidation the cages partition the board; the result is a partition with at most 4 one-cell cages, or the stuck state |
| KenKenCage.KenKenCage.GrowCage | KenKenCage.py:135-157 | the cage starts with rootIndex and has at most goalLength cells (or is just the root); every added cell came out of the free list, which loses exactly those cells; the cage is connected; a cage shorter than its goal has no free neighbour left |
| KenKenCage.KenKenCage.FindNeighbor | KenKenCage.py:186-229 | the cell returned is free and beside a cell of the cage; nothing is returned (the ValueError) exactly when no cage cell has a free neighbour |
| KenKenCage.KenKenCage.TryDirections | KenKenCage.py:201-225 | the directions in shuffled order, with the last on-board step kept across blocked directions, find the first step into a free cell |
| KenKenCage.KenKenCage.SmallestNeighborCage | KenKenCage.py:104-122 | the result is a cage of the list other than [node], touching a neighbour of node, shorter than 9 and no longer than any other such cage; None, the length-9 sentinel, exactly when there is no such cage shorter than 9 |
| KenKenCage.KenKenCage.MergeCages | KenKenCage.py:125-132 | the cage list is `Merge` of the old one: both cages go and their sorted concatenation is appended; a missing cage raises (false) after the removals before it |
| KenKenCage.KenKenCage.ConsolidateOneSingle | KenKenCage.py:90-101 | the cage list is `OneSingle` of the old one, whose meaning `OneSingleMeans` states |
| KenKenCage.KenKenCage.ConsolidateCageList | KenKenCage.py:79-87 | runs rounds while more than M one-cell cages remain: on success at most M are left; from a partition a partition is left, or the stuck state |
| SolverSpec.Candidates | SolveKenKen.py:233-235 | the sorted distinct values at a position of the assignments, `removeDuplicates(sorted(...))` |
| SolverSpec.CandidatesProps | SolveKenKen.py:232-238 | the candidates are strictly increasing, and a value is a candidate exactly when some assignment has it at that position |
| SolverSpec.CandidatesSubset | SolveKenKen.py:381-382 | the candidates of a sublist of the assignments are among the candidates of the list |
| SolverSpec.IndexOf | SolveKenKen.py:380 | `list.index`: the first position holding x |
| SolverSpec.RederiveMeans | SolveKenKen.py:226-238 | with distinct cells, every cell of the cage gets the candidates of its position, and every other cell keeps its list |
| SolverSpec.UpdateCageWellFormed | SolveKenKen.py:221-238 | `updateSolveAndPoss` keeps the tables well formed, with the same cells and cages |
| SolverSpec.UpdateCageConsistent | SolveKenKen.py:221-238 | afterwards the updated cage is consistent (each cell's candidates are what its position takes), and every other cage that was consistent still is |
| SolverSpec.UpdateCageShrinks | SolveKenKen.py:221-238 | when every value of the new assignments is a candidate of its cell, the update only takes candidates away |
| SolverSpec.KeptTuplesCompose | SolveKenKen.py:375-383 | filtering assignments by one set of drops and then by another is filtering by their union |
| SolverSpec.ApplyDropsCompose | SolveKenKen.py:375-383 | making drops D1 and then drops D2 is making D1 + D2 at once, so the order of values, cells and table keys does not change the result |
| SolverSpec.ApplyDropsInvariant | SolveKenKen.py:369-383 | drops keep a well-formed consistent state so, keep its cages, and only take candidates away |
| SolverSpec.ApplyDropsRemoves | SolveKenKen.py:369-383 | afterwards a dropped value is no candidate of a dropped cell that lies in a cage |
| SolverSpec.ApplyDropsSublists | SolveKenKen.py:381 | drops only take assignments away |
| SolverSpec.DropOneInCage | SolveKenKen.py:378-383 | dropping v from cell n of cage K is `updateSolveAndPoss` of K with its assignments that do not put v at n |
| SolverSpec.DropOneNowhere | SolveKenKen.py:378-379 | dropping from a cell no cage holds changes nothing |
| SolverSpec.KeptOne | SolveKenKen.py:380-381 | dropping v from cell n keeps exactly the assignments not putting v at n's position |
| Enumerator.PossibleValues | SolveKenKen.py:146-168 | the generator is absent exactly for EQUALS, the source's ValueError |
| Enumerator.PossibleValuesMeans | SolveKenKen.py:146-168 | for PLUS and TIMES, exactly the non-decreasing length-l lists over 1..size with that sum or product; for MINUS, the pairs a < b with b - a = target; for any other tag, the pairs a < b with b = target * a |
| Enumerator.NodesFitFromMeans | SolveKenKen.py:185-197 | the first loop accepts exactly when every value is a candidate of its cell and no other cell of either line through it has exactly that value as its candidates |
| Enumerator.LineFreeFromMeans | SolveKenKen.py:195-197 | the inner loop over j accepts exactly when no cell (a, j), j != b, and no cell (j, b), j != a, has candidates exactly [v] |
| Enumerator.InvertAt | SolveKenKen.py:201-206 | `invertDic` maps each value taken to the cells that take it, in cage order |
| Enumerator.CellsWithApart | SolveKenKen.py:208-214 | the cells taking one value share no coordinate exactly when every two of them are apart |
| Enumerator.FitsMeans | SolveKenKen.py:171-218 | `possValOrderFits` accepts exactly the orderings whose values are candidates of their cells, not blocked by a single-valued cell of their lines, and whose equal values sit in cells sharing no coordinate |
| Enumerator.PareSetMeans | SolveKenKen.py:118-135 | `solveSet` for a rule is strictly increasing (so no tuple appears twice) and holds exactly the tuples that meet the rule and fit the grid |
| Enumerator.PareSetSound | SolveKenKen.py:124-126 | every kept tuple meets the rule and fits |
| Enumerator.PareSetComplete | SolveKenKen.py:124-126 | every tuple that meets the rule and fits is kept |
| Enumerator.OrderingMeetsRule | SolveKenKen.py:124-126 | every ordering of an allowed combination has one value of 1..size per cell and meets the rule |
| Enumerator.MeetsRuleOrdering | SolveKenKen.py:124-126 | values meeting the rule are an ordering of an allowed combination |
| Enumerator.PareRuleShrinks | SolveKenKen.py:118-140 | paring a rule only takes candidates away |
| Enumerator.PareAllWellFormed | SolveKenKen.py:118-140 | `pareValues` keeps the state well formed and its cages, and only takes candidates away |
| Enumerator.PareAllConsistent | SolveKenKen.py:118-140 | after `pareValues` every rule's cage is consistent, and every other cage that was consistent still is |
| Enumerator.PareAllMeets | SolveKenKen.py:118-140 | when no two rules share a cage, every tuple kept for a rule meets that rule |
| Reductions.SetEqualMeans | SolveKenKen.py:642-660 | after `setNodeEqual` the node's only candidate is val; no struck cell (same first or second coordinate, other coordinate in 0..8) lists val; struck cells lose nothing else; no other cell changes; lists stay strictly increasing |
| Reductions.EqualsRules | SolveKenKen.py:100 | the EQUALS rules of the list, and exactly those |
| Reductions.OtherRules | SolveKenKen.py:102-103 | the rules that stay in the list, exactly the non-EQUALS ones |
| Reductions.RemoveFirstEquals | SolveKenKen.py:103 | removing the first EQUALS rule takes it from the EQUALS rules and leaves the others as they were |
| Reductions.FixSingleWellFormed | SolveKenKen.py:104-107 | fixing a cell to its target keeps the tables well formed with the same cells and cages, and leaves that cage consistent |
| Reductions.CleanSinglesWellFormed | SolveKenKen.py:95-107 | `cleanSingles` keeps the tables well formed, with the same cells and cages |
| Reductions.FixSingleKeepsConsistent | SolveKenKen.py:104-107 | the fixed cage is consistent, and so is every other consistent cage that holds no struck or fixed cell |
| Reductions.AllowedValuesMeans | SolveKenKen.py:343-353 | `allowedValueSet` is strictly increasing, and a value is allowed exactly when one of the cells lists it |
| Reductions.LineCellsMeans | SolveKenKen.py:300 | position i of row r is cell (i, r), and position i of column c is cell (c, i) |
| Reductions.Outside | SolveKenKen.py:311 | `dropNodes`: exactly the line's cells outside the subset |
| Reductions.DropSet | SolveKenKen.py:375 | `itertools.product(vals, nodes)`: exactly the pairs of a value and a cell |
| Reductions.SubsetStepRemoves | SolveKenKen.py:307-312 | when a subset's cells allow exactly as many values as it has cells, afterwards no other cell of the line that lies in a cage lists one of those values |
| Reductions.SubsetStepInvariant | SolveKenKen.py:307-312 | a subset test keeps a well-formed consistent state so, and only takes candidates away |
| Reductions.ReduceInvariant | SolveKenKen.py:303-312 | any sequence of subset tests keeps a well-formed consistent state so, and no candidate list grows |
| Reductions.SubGroupsInvariant | SolveKenKen.py:251-265 | `subGroups` keeps a well-formed consistent state so, and no candidate list grows |
| Reductions.ReduceAppend | SolveKenKen.py:263-265 | running two task lists one after the other is running their concatenation |
| Reductions.SubGroups | SolveKenKen.py:251-265 | `subGroups` keeps the cells and cages and every assignment's length |
| Necessary.CoordsMeans | SolveKenKen.py:518-532 | line y is among the cage's coordinates for v exactly when some assignment puts v in a cell of the cage on that line |
| Necessary.NecessaryIff | SolveKenKen.py:537-543 | v is necessary in a cage exactly when the first assignment holds it and no assignment leaves it out |
| Necessary.DescribesUnique | SolveKenKen.py:503-560 | the `masterDic` that a state describes is unique |
| Necessary.OneKeyPerCage | SolveKenKen.py:546-560 | a cage sits under one coordinate set per value and axis, so different keys never share a cage |
| Necessary.MasterOfDescribes | SolveKenKen.py:503-560 | `MasterOf` is the table of entries of the unsolved cages and no key with an empty cage list |
| Necessary.CageUnsolved | SolveKenKen.py:508-512 | `goOn` is true exactly when some cell of the cage has other than one candidate |
| Necessary.CollectCoordinates | SolveKenKen.py:518-532 | for each value seen, the row list holds the second coordinates, and the column list the first coordinates, of the cells where some assignment puts it; `None` is there exactly when the value is missing from the first assignment |
| Necessary.MarkUnnecessary | SolveKenKen.py:537-543 | each value's lists gain `None` exactly when some assignment leaves the value out |
| Necessary.AddCage | SolveKenKen.py:546-560 | the table gains, under key (v, axis, lines), the cage for each value whose axis list holds no `None` and names exactly those lines, and nothing else |
| Necessary.BuildMaster | SolveKenKen.py:503-560 | the first loop builds exactly the `masterDic` that the state describes |
| NecessaryRule.RuleCountIsCages | SolveKenKen.py:589-593 | distinct keys of one value and axis list no cage in common, so `len(ruleList)` counts cages |
| NecessaryRule.GroupIsSet | SolveKenKen.py:583-591 | for a group without repeated keys, the lines, the cages and their count agree with the set form |
| NecessaryRule.AxisDropsOrder | SolveKenKen.py:578-614 | the walk over groups of 1..size-1 keys in key-list order drops exactly the rule's drops for v on the axis |
| NecessaryRule.TableKeys | SolveKenKen.py:546-560 | the keys of `masterDic[v][axis]` are the coordinate sets of the unsolved cages whose every assignment holds v |
| NecessaryRule.TableRules | SolveKenKen.py:537-560 | the cages under a set of keys are the unsolved cages whose every assignment holds v and whose lines form a key; a cage with an assignment lacking v, or with every cell solved, is never counted |
| NecessaryRule.NecessaryDropsMeans | SolveKenKen.py:574-614 | v is dropped at a cell exactly when the cell lies on a line of some set of 1..size-1 keys whose cages are as many as their lines, and in none of those cages |
| NecessaryRule.NecessaryRuleRemoves | SolveKenKen.py:594-614 | after the drops, a cell on the lines of a firing set of keys and outside its cages no longer holds v |
| NecessaryRule.DropsMore | SolveKenKen.py:574-614 | drops made after drops D, from a well-formed state, are drops made together with D, so the eager drops are those of the snapshot |
| SolveKenKen.RemoveDuplicates | SolveKenKen.py:663-676 | the result is strictly increasing and has exactly the elements of z |
| SolveKenKen.SortedCandidates | SolveKenKen.py:233-235 | `removeDuplicates(sorted(column))` is the column's candidates |
| SolveKenKen.FlattenLists | SolveKenKen.py:129-133 | the flattening loop yields the concatenation of the lists |
| SolveKenKen.PositionCandidates | SolveKenKen.py:233-235 | the position-i values of the assignments, sorted and without repeats |
| SolveKenKen.FirstEquals | SolveKenKen.py:118-119 | the first EQUALS rule's position, or the length when the list has none |
| SolveKenKen.PareUpToValid | SolveKenKen.py:113-143 | `pareValues` keeps the tables well formed and the rules fitting them, with the same cells and cages, and only takes candidates away |
| SolveKenKen.StrikeDone | SolveKenKen.py:647-660 | the nine rounds of `setNodeEqual`'s loop leave the table that `SetEqual` describes |
| SolveKenKen.CleanSinglesValid | SolveKenKen.py:95-107 | `cleanSingles` keeps the tables well formed and the remaining rules fitting them |
| SolveKenKen.OtherRulesTwice | SolveKenKen.py:100-103 | after `cleanSingles` no EQUALS rule is left, and a second run leaves the list as it is |
| SolveKenKen.CycleValid | SolveKenKen.py:63-81 | a cycle keeps the tables well formed with the same cells and cages, and keeps the rules left after `cleanSingles` fitting them (that no list grows is `CycleShrinks`) |
| SolveKenKen.TotalOfRemove | SolveKenKen.py:65 | the total number of assignments does not depend on the order cages are counted in |
| SolveKenKen.Cycles | SolveKenKen.py:63-87 | the tables after n cycles are well formed, with the same cells and cages, and the remaining rules fit them (that no list grows is `CyclesShrink`) |
| SolveKenKen.PareConsistent | SolveKenKen.py:113-143 | `pareValues` on tables whose every cage is consistent or pared by one of the rules leaves them consistent, and no candidate list grows |
| SolveKenKen.CleanedReady | SolveKenKen.py:95-107 | `cleanSingles` on fresh tables (or consistent ones with no EQUALS rule) keeps them well formed, takes candidates only away, and leaves every cage consistent or pared by a remaining rule |
| SolveKenKen.CycleShrinks | SolveKenKen.py:65-81 | a cycle from fresh tables, or from consistent tables once no EQUALS rule is left, leaves the tables well formed and consistent, and no candidate list grows |
| SolveKenKen.CyclesShrink | SolveKenKen.py:63-87 | from fresh tables, after every cycle the tables are consistent, and no candidate list grows: neither over that cycle nor since the start |
| SolveKenKen.ShrunkAfter | SolveKenKen.py:63-87 | after one cycle or more from fresh tables, the tables are consistent and no candidate list is longer than at the start |
| SolveKenKen.ReplyAt | SolveKenKen.py:83-87 | the answer read to the q-th prompt; with no answer left, one that stops the loop, as an empty line does |
| SolveKenKen.StallCount | SolveKenKen.py:83-87 | the prompts asked in the first k cycles: at most k, and at least one once the k-th cycle stalled |
| SolveKenKen.StallStep | SolveKenKen.py:83-87 | one cycle more: it stalls exactly when it leaves the total number of assignments as it was, it asks one more prompt exactly then, and the loop then stops exactly when that prompt's answer is "y" or "" |
| SolveKenKen.ExitUnique | SolveKenKen.py:63 | the loop's exit condition holds at one number of cycles only, so replies and fuel fix how many cycles run |
| SolveKenKen.ReduceIndices | SolveKenKen.py:566-572 | `reduceIndices` is the strictly increasing list of exactly the lines the group's keys name |
| SolveKenKen.CoordKeys | SolveKenKen.py:578 | `coordDic.keys()` lists every key of the value and axis once |
| SolveKenKen.GroupRules | SolveKenKen.py:589-591 | `ruleList` holds exactly the cages listed under the group's keys, and its length their number |
| SolveKenKen.IsDropNode | SolveKenKen.py:605-608 | `isDropNode` is true exactly when the cell lies in none of the cages |
| SolveKenKen.LineDropNodes | SolveKenKen.py:598-611 | `dropNodes` are exactly the cells (k, coord) of a row key (axis 0) or (coord, k) of a column key (axis 1), k < size, outside the cages |
| SolveKenKen.KenKenSolver.constructor | SolveKenKen.py:25-39 | the solver holds its own copies of the puzzle's rules and tables, is not solved, and its tables are well formed |
| SolveKenKen.KenKenSolver.UpdateSolveAndPoss | SolveKenKen.py:221-238 | the tables become `UpdateCage` of the old ones, whose meaning `RederiveMeans` and `UpdateCageConsistent` state |
| SolveKenKen.KenKenSolver.PareOne | SolveKenKen.py:119-140 | one rule is pared: its cage gets `PareSet`, the exact fitting assignments, and its cells their re-derived candidates |
| SolveKenKen.KenKenSolver.PareValues | SolveKenKen.py:113-143 | every rule is pared in turn; an EQUALS rule still in the list stops the pass with an error after the rules before it; the state stays valid |
| SolveKenKen.KenKenSolver.SetNodeEqual | SolveKenKen.py:642-660 | the candidate table becomes `SetEqual` of the old one, whose meaning `SetEqualMeans` states |
| SolveKenKen.KenKenSolver.CleanSingles | SolveKenKen.py:95-107 | every EQUALS rule leaves the list; its cell is fixed to the target and struck from its lines, and its cage gets the single assignment (target,); the state stays valid |
| SolveKenKen.KenKenSolver.CleanOne | SolveKenKen.py:102-107 | one EQUALS rule leaves the list and its cell is fixed |
| SolveKenKen.KenKenSolver.FixSingleCell | SolveKenKen.py:104-107 | the tables become `FixSingle` of the old ones |
| SolveKenKen.KenKenSolver.DropFromCage | SolveKenKen.py:378-383 | the first cage holding the cell keeps the assignments not putting the value there, and its cells are re-derived: `ApplyDrops` of one drop |
| SolveKenKen.KenKenSolver.DropValFromNodes | SolveKenKen.py:375-383 | one value leaves every cell of the list: `ApplyDrops` of its drops |
| SolveKenKen.KenKenSolver.DropValsFromNodesRow | SolveKenKen.py:369-383 | the tables become `ApplyDrops` of the old ones for every (value, cell) pair, whose meaning `ApplyDropsInvariant` and `ApplyDropsRemoves` state |
| SolveKenKen.KenKenSolver.ReduceSubset | SolveKenKen.py:305-312 | one subset test: the tables become `SubsetStep` of the old ones |
| SolveKenKen.KenKenSolver.ReduceSubsetsOfSize | SolveKenKen.py:305-312 | the subsets of one size, in `combinations` order |
| SolveKenKen.KenKenSolver.ReduceLine | SolveKenKen.py:303-312 | every subset of 2..size-1 cells of the line, smallest first, is checked in turn |
| SolveKenKen.KenKenSolver.ReduceRow | SolveKenKen.py:293-315 | `reduceRow` on the cells (i, rowIndex) |
| SolveKenKen.KenKenSolver.ReduceColumn | SolveKenKen.py:318-340 | `reduceColumn` on the cells (columnIndex, i) |
| SolveKenKen.KenKenSolver.SubGroups | SolveKenKen.py:251-265 | row i, then column i, for every i: the tables become `Reductions.SubGroups` of the old ones |
| SolveKenKen.KenKenSolver.NecessaryLines | SolveKenKen.py:594-614 | the value leaves the cells of every line of the group that lie outside its cages |
| SolveKenKen.KenKenSolver.NecessaryGroup | SolveKenKen.py:583-614 | a group of keys drops the value only when its cages are as many as its lines |
| SolveKenKen.KenKenSolver.NecessaryLevels | SolveKenKen.py:579-614 | the groups of 1..size-1 keys, smallest first |
| SolveKenKen.KenKenSolver.NecessaryValues | SolveKenKen.py:574-614 | every value of the table, on both axes |
| SolveKenKen.KenKenSolver.NecessaryRuleValues | SolveKenKen.py:475-614 | `masterDic` is built from the tables, then the drops are made eagerly: the result is `ApplyDrops` of the snapshot's `NecessaryDrops`, whose meaning `NecessaryDropsMeans` states; the state stays well formed |
| SolveKenKen.KenKenSolver.KenkenSolved | SolveKenKen.py:627-638 | `solved` is true exactly when every cell of the table has one candidate |
| SolveKenKen.KenKenSolver.TotalAssignments | SolveKenKen.py:65 | the sum of the lengths of the assignment lists |
| SolveKenKen.KenKenSolver.SolveCycle | SolveKenKen.py:65-81 | one cycle: `cleanSingles`, `pareValues`, `subGroups`, `necessaryRuleValues` and `kenkenSolved`; the state stays valid, and from fresh or consistent tables they end up consistent with no candidate list grown |
| SolveKenKen.KenKenSolver.Turn | SolveKenKen.py:63-87 | one turn: a cycle, then the prompt exactly when the total number of assignments did not change; the answer read is the next unread one, and it stops the loop exactly when it is "y" or "" |
| SolveKenKen.KenKenSolver.RunCycles | SolveKenKen.py:61-87 | on the 9 x 9 board: the tables are those after `cycles` cycles; after every earlier cycle the grid was unsolved and no answer said stop (answers read one per stalled cycle); the loop left because the grid is solved, a stalled cycle's answer was "y" or "", or the fuel ran out; from fresh tables the tables are consistent and no candidate list grew |
| SolveKenKen.KenKenSolver.HandOver | SolveKenKen.py:89-90 | the puzzle's tables take the solver's entries, and every cell the solver has down to one candidate displays it, other displayed numbers kept (`updatePossDic`) |
| SolveKenKen.KenKenSolver.SolveKenKen | SolveKenKen.py:50-92 | the loop as `RunCycles` states it, then the puzzle takes the solver's tables and displays its single candidates as `HandOver` states |
| GeneratedPuzzle.RandomSquareNine | LatinSquare.py:13-17 | the square `randomLatinSquare` returns is 9 x 9 with entries 1..9 and no repeat in a row or column |
| GeneratedPuzzle.PartitionCut | KenKenCage.py:27-33 | a partition of the board from the cage generator gives non-empty cages of distinct board cells, no cell in two cages |
| GeneratedPuzzle.CageOfPartition | KenKenCage.py:57-65 | a cage of a partition is non-empty and lists no cell twice |
| GeneratedPuzzle.DrawnFits | KenKenClass.py:176-228 | the cages of the 9 x 9 board lie in the square and meet no division by zero, so `createRules` takes every one |
| GeneratedPuzzle.RuleOfCage | KenKenClass.py:176-228 | every generated rule is the rule `createRules` made for one of the cages |
| GeneratedPuzzle.GeneratedRuleShape | KenKenClass.py:182-226 | a generated rule is on its cage's cells, EQUALS exactly for a one-cell cage with the solution value as target, and otherwise a rule the enumerator takes |
| GeneratedPuzzle.GeneratedCages | KenKenClass.py:102-107 | the keys of `solveDicInit`'s table are the rules' cages: distinct board cells, no cell in two cages |
| GeneratedPuzzle.GeneratedSingles | KenKenClass.py:182-188 | the EQUALS targets of a generated puzzle are candidates of their cells, and two on one row or column differ |
| GeneratedPuzzle.SquareSingles | KenKenClass.py:182-188 | targets read off a square with no repeat in a row or column are candidates of [1..9], agree on one cell and differ on one line |
| GeneratedPuzzle.SquareApart | LatinSquare.py:21-36 | two cells of one row or column of such a square hold different values |
| GeneratedPuzzle.GeneratedTablesReady | KenKenClass.py:92-116 | the candidate table of `possDicInit`, the empty assignment lists of `solveDicInit` and the rules of `createRules` are well formed, fit the solver and are fresh |
| GeneratedPuzzle.NewSolver | SolveKenKen.py:25-39 | a `KenKen` built around the fixed square from cages that cut the board, then a solver on it: valid, of size 9, with full candidate lists and fresh tables, so every cycle keeps its lists from growing |

## Left out

- `DisplayKenKen.py`, `updateAndDisplay`, `showOnFly`, `updatePrint` and the `print` statements are rendering and text output. DisplayKenKen.py is not part of this model.
- `raw_input` is interactive input. Its answers are the `replies` parameter of `RunCycles`, `Turn` and `SolveKenKen`.
- SolveKenKen.KenKenSolver.RunCycles: a `fuel` bound caps the number of cycles. The source loops without a bound until the grid is solved or the user answers "y" or "".
- Randomness becomes arguments:
  - `random.randrange` becomes `pick` in `CageListInit`;
  - `desiredLength` and its floating-point thresholds become `goal`: any length per cage is allowed, so its distribution is not modelled;
  - `random.shuffle` becomes `order` in `FindNeighbor` and `BruteForceLatinSquare`;
  - `random.randint` becomes `choice` in `KenKen.constructor`.
- KenKenClass.KenKen.constructor: cages and operation draws are arguments. It takes the cage list and the operations as parameters rather than running `KenKenCage` itself (`randomKenKenInit` at KenKenClass.py:92-99). `GeneratedPuzzle.NewSolver` requires the cages to cut the board, and `PartitionCut` shows the generator's partitions do.
- KenKenClass.KenKen.CreateRules requires each drawn operation to be in range (1..4 for two cells, 1..2 for more), which `random.randint` guarantees, and a nonzero smaller value for a division. The two ValueError branches (KenKenClass.py:211-212, 225-226) therefore never run.
- `reduceRule`, `dropValsFromNodesRule`, the commented-out `singleValueInRules` and the older `necessaryRuleValues` in a string are dead code that is never called (SolveKenKen.py:241-248, 268-290, 356-366, 386-473).
- `copy.deepcopy`, `KenKen.copy`, the getters (`getSolveValues`, `getPossValues`, `getDisplayDic`, `getCageList`) and the `__del__` methods only copy or return fields. The solver's constructor copies values, and the generator's cage list is read directly.
- `scipy.sum`, `scipy.product` and `scipy.prod` are modelled as integer sum and product; `scipy.array` and `scipy.zeros` as Dafny sequences and arrays.
- Floating-point division: the quotient test at SolveKenKen.py:168 is modelled as the integer test b = target * a.
- Dictionary iteration order is left unspecified, through choices over key sets. `ApplyDropsCompose` and `DropsMore` show that the result does not depend on it.
- Enumerator.PossibleValues: Python generators are modelled as the lists they yield.
- Necessary.BuildMaster builds `masterDic` as sets of cages under (value, axis, lines) keys rather than nested dictionaries of lists. Each cage is listed at most once per key, so the lengths agree (`RuleCountIsCages`).
- Reductions.SetEqual: the source's `range(9)` (SolveKenKen.py:650) is kept. A cell off the candidate table is skipped, as the bare `except` does.
- Reductions.Gather: a cell without a candidate list contributes nothing. In the source it would raise a KeyError; every line cell the solver passes is on the board.
- SolveKenKen.KenKenSolver.ReduceRow: it requires 0 <= rowIndex < size. The source would raise a KeyError on other rows. The same holds for ReduceColumn.
- KenKenCage.KenKenCage.GrowCage returns the shrunk free list as `rest`, rather than mutating the caller's `indexSet` in place.
- KenKenCage.KenKenCage.MergeCages: the length-9 sentinel `[0, 0, ..., 0]` is modelled as `None`. The merge with it is the failure `false`: the one-cell cage has been removed when the second `remove` raises.
- KenKenCage.KenKenCage.ConsolidateOneSingle: with no cage at all the source raises NameError, and with an empty cage IndexError. The model leaves the list unchanged and returns false in both cases.
- KenKenCage.ConsolidatedMeans does not track cage connectivity through merges. It states the partition only.
- KenKenCage.KenKenCage.CageListInit: an exception from consolidation (the sentinel merge) ends the generator in the source. The model reports it as the stuck state.
- The solver assumes 9 x 9 (`possDicInit`, `setNodeEqual`). `RunCycles` and `SolveKenKen` require size 9. The lemmas about single passes keep the size as a parameter, and the lemmas about the fixed square require 9.
