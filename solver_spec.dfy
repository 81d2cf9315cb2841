/**
 * The solver's state as values, and the state changes every elimination
 * of the solver is built from.
 *
 * The state is the pair of tables the solver keeps: the candidate table
 * (cell -> sorted candidate values) and the assignment table (a cage's
 * cells -> the value tuples still allowed for them, one value per cell in
 * the order of the cells).
 */
module SolverSpec {
  import opened Lists
  import opened Itertools
  import opened KenKenClass

  type Poss = map<Cell, seq<int>>
  type Solve = map<seq<Cell>, seq<seq<int>>>

  datatype St = St(poss: Poss, solve: Solve)

  // -----------------------------------------------------------------------
  // Re-deriving a cage's candidates from its assignments
  // -----------------------------------------------------------------------

  /** Every tuple of S has one value per cell of K. */
  ghost predicate TuplesFit(K: seq<Cell>, S: seq<seq<int>>) {
    forall t :: t in S ==> |t| == |K|
  }

  /** Position i of every tuple of S. */
  function Column(S: seq<seq<int>>, i: nat): (r: seq<int>)
    requires forall t :: t in S ==> i < |t|
    ensures |r| == |S|
    ensures forall k :: 0 <= k < |S| ==> r[k] == S[k][i]
  {
    seq(|S|, k requires 0 <= k < |S| => S[k][i])
  }

  /** The sorted distinct values at position i of the tuples of S,
      `removeDuplicates(sorted([x[i] for x in S]))`. */
  function Candidates(S: seq<seq<int>>, i: nat): seq<int>
    requires forall t :: t in S ==> i < |t|
  {
    if S == [] then []
    else
      assert S == [S[0]] + S[1..];
      InsertUnique(S[0][i], Candidates(S[1..], i))
  }

  /** The candidates come out strictly increasing, and x is a candidate
      exactly when some tuple has x at position i. */
  lemma {:induction false} CandidatesProps(S: seq<seq<int>>, i: nat)
    requires forall t :: t in S ==> i < |t|
    ensures StrictlyIncreasing(Candidates(S, i), IntLess)
    ensures forall x :: x in Candidates(S, i) <==> exists t :: t in S && t[i] == x
  {
    if S != [] {
      assert S == [S[0]] + S[1..];
      CandidatesProps(S[1..], i);
      InsertUniqueMeans(S[0][i], Candidates(S[1..], i));
      forall x | x in Candidates(S, i) ensures exists t :: t in S && t[i] == x {
        if x != S[0][i] {
          var t :| t in S[1..] && t[i] == x;
          assert t in S;
        }
      }
    }
  }

  lemma CandidatesIncreasing(S: seq<seq<int>>, i: nat)
    requires forall t :: t in S ==> i < |t|
    ensures StrictlyIncreasing(Candidates(S, i), IntLess)
  {
    CandidatesProps(S, i);
  }

  lemma CandidatesMeans(S: seq<seq<int>>, i: nat, x: int)
    requires forall t :: t in S ==> i < |t|
    ensures x in Candidates(S, i) <==> exists t :: t in S && t[i] == x
  {
    CandidatesProps(S, i);
  }

  /** Candidates of a sublist are among the candidates of the list. */
  lemma CandidatesSubset(S: seq<seq<int>>, S': seq<seq<int>>, i: nat)
    requires forall t :: t in S ==> i < |t|
    requires forall t :: t in S' ==> t in S
    ensures forall x :: x in Candidates(S', i) ==> x in Candidates(S, i)
  {
    forall x | x in Candidates(S', i) ensures x in Candidates(S, i) {
      CandidatesMeans(S', i, x);
      CandidatesMeans(S, i, x);
    }
  }

  /** `list.index`: the first position of x. */
  function IndexOf<T(==)>(s: seq<T>, x: T): (r: nat)
    requires x in s
    ensures r < |s| && s[r] == x
    ensures forall k :: 0 <= k < r ==> s[k] != x
  {
    if s[0] == x then 0 else 1 + IndexOf(s[1..], x)
  }

  lemma IndexOfNoDup<T>(s: seq<T>, k: nat)
    requires NoDup(s) && k < |s|
    ensures IndexOf(s, s[k]) == k
  {
  }

  /** The table poss with cells K[0..i) set to V[0..i) in turn, a later
      cell winning over an earlier equal one. */
  function Assign(poss: Poss, K: seq<Cell>, V: seq<seq<int>>, i: nat): Poss
    requires i <= |K| && i <= |V|
  {
    if i == 0 then poss else Assign(poss, K, V, i - 1)[K[i - 1] := V[i - 1]]
  }

  /** Assigning K[0..i) adds exactly those cells to the table. */
  lemma {:induction false} AssignKeys(poss: Poss, K: seq<Cell>, V: seq<seq<int>>, i: nat, c: Cell)
    requires i <= |K| && i <= |V|
    ensures c in Assign(poss, K, V, i) <==> c in poss || c in K[..i]
  {
    if i > 0 {
      AssignKeys(poss, K, V, i - 1, c);
      assert K[..i] == K[..i - 1] + [K[i - 1]];
    }
  }

  /** With distinct cells, cell K[k] gets V[k]. */
  lemma {:induction false} AssignAt(poss: Poss, K: seq<Cell>, V: seq<seq<int>>, i: nat, k: nat)
    requires k < i <= |K| && i <= |V| && NoDup(K)
    ensures K[k] in Assign(poss, K, V, i) && Assign(poss, K, V, i)[K[k]] == V[k]
  {
    if k < i - 1 {
      AssignAt(poss, K, V, i - 1, k);
      assert K[k] != K[i - 1];
    }
  }

  /** Cells outside K[0..i) keep their lists. */
  lemma {:induction false} AssignOther(poss: Poss, K: seq<Cell>, V: seq<seq<int>>, i: nat, c: Cell)
    requires i <= |K| && i <= |V|
    requires c in poss && c !in K[..i]
    ensures c in Assign(poss, K, V, i) && Assign(poss, K, V, i)[c] == poss[c]
  {
    if i > 0 {
      assert K[..i] == K[..i - 1] + [K[i - 1]];
      AssignOther(poss, K, V, i - 1, c);
    }
  }

  /** The candidates of every position of cage K under the tuples S. */
  function CageCandidates(K: seq<Cell>, S: seq<seq<int>>): (V: seq<seq<int>>)
    requires forall t :: t in S ==> |t| == |K|
    ensures |V| == |K| && forall k :: 0 <= k < |K| ==> V[k] == Candidates(S, k)
  {
    seq(|K|, k requires 0 <= k < |K| => Candidates(S, k))
  }

  /**
   * The candidate-table half of `updateSolveAndPoss(S, K)`: every cell of
   * K gets the candidates its position takes in S.
   */
  function Rederive(poss: Poss, K: seq<Cell>, S: seq<seq<int>>): Poss
    requires forall t :: t in S ==> |t| == |K|
  {
    Assign(poss, K, CageCandidates(K, S), |K|)
  }

  /** With distinct cells, re-deriving cage K from S gives every cell of K
      the candidates of its position and leaves every other cell. */
  lemma RederiveMeans(poss: Poss, K: seq<Cell>, S: seq<seq<int>>)
    requires NoDup(K)
    requires forall t :: t in S ==> |t| == |K|
    ensures forall c :: c in Rederive(poss, K, S) <==> c in poss || c in K
    ensures forall k :: 0 <= k < |K| ==> Rederive(poss, K, S)[K[k]] == Candidates(S, k)
    ensures forall c :: c in poss && c !in K ==> Rederive(poss, K, S)[c] == poss[c]
  {
    var V := CageCandidates(K, S);
    assert K[..|K|] == K;
    forall c ensures c in Assign(poss, K, V, |K|) <==> c in poss || c in K {
      AssignKeys(poss, K, V, |K|, c);
    }
    forall k | 0 <= k < |K| ensures Assign(poss, K, V, |K|)[K[k]] == Candidates(S, k) {
      AssignAt(poss, K, V, |K|, k);
    }
    forall c | c in poss && c !in K ensures Assign(poss, K, V, |K|)[c] == poss[c] {
      AssignOther(poss, K, V, |K|, c);
    }
  }

  // -----------------------------------------------------------------------
  // Well-formed states
  // -----------------------------------------------------------------------

  /** Every assignment tuple has one value per cell of its cage. */
  ghost predicate Shaped(st: St) {
    forall K, t :: K in st.solve && t in st.solve[K] ==> |t| == |K|
  }

  /** No cell lies in two cages of the assignment table. */
  ghost predicate Disjoint(solve: Solve) {
    forall K1, K2, c :: K1 in solve && K2 in solve && c in K1 && c in K2 ==> K1 == K2
  }

  /**
   * The shape of the solver's tables: the board's cells have candidate
   * lists, which are strictly increasing; every cage is a list of
   * distinct board cells, cages do not overlap, and every assignment
   * tuple has one value per cell of its cage.
   */
  ghost predicate WellFormed(size: int, st: St) {
    && Grid(size) <= st.poss.Keys
    && (forall c :: c in st.poss ==> StrictlyIncreasing(st.poss[c], IntLess))
    && (forall K :: K in st.solve ==> NoDup(K) && forall c :: c in K ==> c in Grid(size))
    && Disjoint(st.solve)
    && Shaped(st)
  }

  /** A state with the same cells and cages as a well-formed one, shaped
      and with increasing lists, is well formed. */
  lemma WellFormedSameKeys(size: int, st: St, r: St)
    requires WellFormed(size, st)
    requires r.poss.Keys == st.poss.Keys && r.solve.Keys == st.solve.Keys
    requires Shaped(r) && forall c :: c in r.poss ==> StrictlyIncreasing(r.poss[c], IntLess)
    ensures WellFormed(size, r)
  {
  }

  /** Cage K's candidates are what its assignments allow, cell by cell. */
  ghost predicate ConsistentAt(st: St, K: seq<Cell>)
    requires Shaped(st)
    requires K in st.solve
  {
    forall i :: 0 <= i < |K| ==> K[i] in st.poss && st.poss[K[i]] == Candidates(st.solve[K], i)
  }

  /** Every cage is consistent. */
  ghost predicate Consistent(st: St)
    requires Shaped(st)
  {
    forall K :: K in st.solve ==> ConsistentAt(st, K)
  }

  /** No candidate list gained a value, and no cell was added or lost. */
  ghost predicate Shrinks(before: Poss, after: Poss) {
    && after.Keys == before.Keys
    && forall c, x :: c in before && x in after[c] ==> x in before[c]
  }

  lemma ShrinksTrans(a: Poss, b: Poss, c: Poss)
    requires Shrinks(a, b) && Shrinks(b, c)
    ensures Shrinks(a, c)
  {
  }

  /** Some cage holds cell c. */
  ghost predicate InSomeCage(solve: Solve, c: Cell) {
    exists K :: K in solve && c in K
  }

  /** The cage holding c (the only one, when the cages do not overlap). */
  ghost function OwnerOf(solve: Solve, c: Cell): (K: seq<Cell>)
    requires InSomeCage(solve, c)
    ensures K in solve && c in K
  {
    var K :| K in solve && c in K; K
  }

  lemma OwnerUnique(solve: Solve, K: seq<Cell>, c: Cell)
    requires Disjoint(solve)
    requires K in solve && c in K
    ensures OwnerOf(solve, c) == K
  {
  }

  // -----------------------------------------------------------------------
  // Replacing one cage's tuples
  // -----------------------------------------------------------------------

  /** `updateSolveAndPoss(S, K)`: cage K gets the tuples S and its cells
      the candidates re-derived from them. */
  function UpdateCage(st: St, K: seq<Cell>, S: seq<seq<int>>): St
    requires TuplesFit(K, S)
  {
    St(Rederive(st.poss, K, S), st.solve[K := S])
  }

  /** Re-deriving a cage keeps every candidate list strictly increasing. */
  lemma RederiveIncreasing(poss: Poss, K: seq<Cell>, S: seq<seq<int>>)
    requires NoDup(K) && TuplesFit(K, S)
    requires forall c :: c in poss ==> StrictlyIncreasing(poss[c], IntLess)
    ensures forall c :: c in Rederive(poss, K, S) <==> c in poss || c in K
    ensures forall c :: c in Rederive(poss, K, S) ==> StrictlyIncreasing(Rederive(poss, K, S)[c], IntLess)
  {
    RederiveMeans(poss, K, S);
    forall c | c in Rederive(poss, K, S) ensures StrictlyIncreasing(Rederive(poss, K, S)[c], IntLess) {
      if c in K {
        var k :| 0 <= k < |K| && K[k] == c;
        CandidatesIncreasing(S, k);
      }
    }
  }

  /** Updating a cage of the table keeps a well-formed state well formed. */
  lemma UpdateCageWellFormed(size: int, st: St, K: seq<Cell>, S: seq<seq<int>>)
    requires WellFormed(size, st) && K in st.solve && TuplesFit(K, S)
    ensures UpdateCage(st, K, S).poss.Keys == st.poss.Keys
    ensures UpdateCage(st, K, S).solve.Keys == st.solve.Keys
    ensures WellFormed(size, UpdateCage(st, K, S))
  {
    var nw := UpdateCage(st, K, S);
    RederiveIncreasing(st.poss, K, S);
    WellFormedSameKeys(size, st, nw);
  }

  /** After the update cage K is consistent. */
  lemma UpdateCageConsistentSelf(st: St, K: seq<Cell>, S: seq<seq<int>>)
    requires Shaped(st) && NoDup(K) && TuplesFit(K, S)
    ensures Shaped(UpdateCage(st, K, S))
    ensures K in UpdateCage(st, K, S).solve && ConsistentAt(UpdateCage(st, K, S), K)
  {
    RederiveMeans(st.poss, K, S);
    assert forall c :: c in K ==> c in Rederive(st.poss, K, S);
  }

  /** The update leaves a consistent cage that shares no cell with K
      consistent. */
  lemma UpdateCageConsistentOther(st: St, K: seq<Cell>, S: seq<seq<int>>, K': seq<Cell>)
    requires Shaped(st) && NoDup(K) && TuplesFit(K, S)
    requires K' in st.solve && K' != K && ConsistentAt(st, K')
    requires forall c :: c in K' ==> c !in K
    ensures Shaped(UpdateCage(st, K, S))
    ensures ConsistentAt(UpdateCage(st, K, S), K')
  {
    var nw := UpdateCage(st, K, S);
    RederiveMeans(st.poss, K, S);
    assert nw.solve[K'] == st.solve[K'];
    forall i | 0 <= i < |K'| ensures K'[i] in nw.poss && nw.poss[K'[i]] == st.poss[K'[i]] {
      assert K'[i] in K';
    }
  }

  /** After the update cage K is consistent, and every other cage that was
      consistent still is. */
  lemma UpdateCageConsistent(size: int, st: St, K: seq<Cell>, S: seq<seq<int>>, K': seq<Cell>)
    requires WellFormed(size, st) && K in st.solve && TuplesFit(K, S)
    requires K' in st.solve && (K' == K || ConsistentAt(st, K'))
    ensures WellFormed(size, UpdateCage(st, K, S)) && ConsistentAt(UpdateCage(st, K, S), K')
  {
    UpdateCageWellFormed(size, st, K, S);
    if K' == K {
      UpdateCageConsistentSelf(st, K, S);
    } else {
      UpdateCageConsistentOther(st, K, S, K');
    }
  }

  /** When every value of S is a candidate of its cell, the update only
      takes candidates away. */
  lemma UpdateCageShrinks(st: St, K: seq<Cell>, S: seq<seq<int>>)
    requires TuplesFit(K, S) && NoDup(K)
    requires forall c :: c in K ==> c in st.poss
    requires forall t, i :: t in S && 0 <= i < |K| ==> t[i] in st.poss[K[i]]
    ensures Shrinks(st.poss, UpdateCage(st, K, S).poss)
  {
    var nw := UpdateCage(st, K, S);
    RederiveMeans(st.poss, K, S);
    forall c, x | c in st.poss && x in nw.poss[c] ensures x in st.poss[c] {
      if c in K {
        var k :| 0 <= k < |K| && K[k] == c;
        CandidatesMeans(S, k, x);
      }
    }
  }

  // -----------------------------------------------------------------------
  // Dropping values from cells
  // -----------------------------------------------------------------------

  /** A drop (v, n): value v is to leave cell n. */
  type Drop = (int, Cell)

  /** Tuple t of cage K puts none of the dropped values at its cell. */
  ghost predicate Kept(K: seq<Cell>, D: set<Drop>, t: seq<int>) {
    forall i :: 0 <= i < |K| && i < |t| ==> (t[i], K[i]) !in D
  }

  /** Some drop concerns a cell of cage K. */
  ghost predicate Hit(K: seq<Cell>, D: set<Drop>) {
    exists d :: d in D && d.1 in K
  }

  lemma NotHitKeepsAll(K: seq<Cell>, D: set<Drop>, t: seq<int>)
    requires !Hit(K, D)
    ensures Kept(K, D, t)
  {
    forall i | 0 <= i < |K| && i < |t| ensures (t[i], K[i]) !in D {
      assert K[i] in K;
    }
  }

  /** Cage K's tuples S without those that put a dropped value at its cell. */
  ghost function KeptTuples(K: seq<Cell>, D: set<Drop>, S: seq<seq<int>>): (r: seq<seq<int>>)
    ensures forall t :: t in r <==> t in S && Kept(K, D, t)
  {
    if S == [] then []
    else
      assert S == [S[0]] + S[1..];
      (if Kept(K, D, S[0]) then [S[0]] else []) + KeptTuples(K, D, S[1..])
  }

  lemma KeptUnion(K: seq<Cell>, D1: set<Drop>, D2: set<Drop>, t: seq<int>)
    ensures Kept(K, D1 + D2, t) == (Kept(K, D1, t) && Kept(K, D2, t))
  {
  }

  lemma HitUnion(K: seq<Cell>, D1: set<Drop>, D2: set<Drop>)
    ensures Hit(K, D1 + D2) == (Hit(K, D1) || Hit(K, D2))
  {
  }

  /** Filtering by D1 and then by D2 is filtering by D1 + D2. */
  lemma {:induction false} KeptTuplesCompose(K: seq<Cell>, D1: set<Drop>, D2: set<Drop>, S: seq<seq<int>>)
    ensures KeptTuples(K, D2, KeptTuples(K, D1, S)) == KeptTuples(K, D1 + D2, S)
  {
    if S != [] {
      KeptUnion(K, D1, D2, S[0]);
      KeptTuplesCompose(K, D1, D2, S[1..]);
      var rest := KeptTuples(K, D1, S[1..]);
      if Kept(K, D1, S[0]) {
        assert KeptTuples(K, D1, S) == [S[0]] + rest;
        assert KeptTuples(K, D1, S)[1..] == rest;
      } else {
        assert KeptTuples(K, D1, S) == rest;
      }
    }
  }

  /** Drops that do not concern cage K leave its tuples alone. */
  lemma KeptTuplesNotHit(K: seq<Cell>, D: set<Drop>, S: seq<seq<int>>)
    requires !Hit(K, D)
    ensures KeptTuples(K, D, S) == S
  {
    forall t ensures Kept(K, D, t) { NotHitKeepsAll(K, D, t); }
    FilterAll(S, t => Kept(K, D, t));
  }

  /** The assignment table with, in every cage, the tuples that put a
      dropped value at its cell removed. */
  ghost function FilterSolve(solve: Solve, D: set<Drop>): (r: Solve)
    ensures r.Keys == solve.Keys
  {
    map K | K in solve :: KeptTuples(K, D, solve[K])
  }

  /** The candidates of cell c once the drops are made: re-derived when
      the drops concern its cage, unchanged otherwise. */
  ghost function DroppedAt(st: St, D: set<Drop>, c: Cell): (r: seq<int>)
    requires Shaped(st)
    requires c in st.poss
  {
    if InSomeCage(st.solve, c) && Hit(OwnerOf(st.solve, c), D) then
      var K := OwnerOf(st.solve, c);
      var S := KeptTuples(K, D, st.solve[K]);
      assert forall t :: t in S ==> |t| == |K|;
      Candidates(S, IndexOf(K, c))
    else st.poss[c]
  }

  /**
   * The state `dropValsFromNodesRow` leaves for the set D of drops:
   * every cage a drop concerns loses the tuples that put a dropped value
   * at a dropped cell, and its cells' candidates are re-derived from
   * what is left. Other cages and cells keep their lists.
   */
  ghost function ApplyDrops(st: St, D: set<Drop>): (r: St)
    requires Shaped(st)
    ensures r.solve == FilterSolve(st.solve, D)
    ensures r.poss.Keys == st.poss.Keys
  {
    St(map c | c in st.poss :: DroppedAt(st, D, c), FilterSolve(st.solve, D))
  }

  /** Drops keep every tuple the right length. */
  lemma ApplyDropsShaped(st: St, D: set<Drop>)
    requires Shaped(st)
    ensures Shaped(ApplyDrops(st, D))
  {
  }

  /** The candidates of cell i of cage K after the drops. */
  lemma DroppedInCage(st: St, D: set<Drop>, K: seq<Cell>, i: nat)
    requires Shaped(st) && Disjoint(st.solve)
    requires K in st.solve && NoDup(K) && i < |K| && K[i] in st.poss
    ensures forall t :: t in KeptTuples(K, D, st.solve[K]) ==> i < |t|
    ensures ApplyDrops(st, D).poss[K[i]] ==
      if Hit(K, D) then Candidates(KeptTuples(K, D, st.solve[K]), i) else st.poss[K[i]]
  {
    assert K[i] in K;
    OwnerUnique(st.solve, K, K[i]);
    IndexOfNoDup(K, i);
  }

  /** A cell no concerned cage holds keeps its candidates. */
  lemma DroppedElsewhere(st: St, D: set<Drop>, c: Cell)
    requires Shaped(st) && c in st.poss
    requires forall K :: K in st.solve && c in K ==> !Hit(K, D)
    ensures ApplyDrops(st, D).poss[c] == st.poss[c]
  {
  }

  /** With no drops nothing changes. */
  lemma ApplyNoDrops(st: St)
    requires Shaped(st)
    ensures ApplyDrops(st, {}) == st
  {
    ApplyDropsUnhit(st, {});
  }

  lemma FilterSolveCompose(solve: Solve, D1: set<Drop>, D2: set<Drop>)
    ensures FilterSolve(FilterSolve(solve, D1), D2) == FilterSolve(solve, D1 + D2)
  {
    var a := FilterSolve(FilterSolve(solve, D1), D2);
    var b := FilterSolve(solve, D1 + D2);
    forall K | K in solve ensures a[K] == b[K] {
      KeptTuplesCompose(K, D1, D2, solve[K]);
    }
  }

  /** Drops compose at one cell of a cage. */
  lemma ComposeInCage(st: St, D1: set<Drop>, D2: set<Drop>, K: seq<Cell>, i: nat)
    requires Shaped(st) && Disjoint(st.solve)
    requires K in st.solve && NoDup(K) && i < |K| && K[i] in st.poss
    requires Shaped(ApplyDrops(st, D1))
    ensures ApplyDrops(ApplyDrops(st, D1), D2).poss[K[i]] == ApplyDrops(st, D1 + D2).poss[K[i]]
  {
    var mid := ApplyDrops(st, D1);
    assert Disjoint(mid.solve);
    DroppedInCage(st, D1, K, i);
    DroppedInCage(mid, D2, K, i);
    DroppedInCage(st, D1 + D2, K, i);
    HitUnion(K, D1, D2);
    KeptTuplesCompose(K, D1, D2, st.solve[K]);
    if !Hit(K, D2) {
      KeptTuplesNotHit(K, D2, mid.solve[K]);
    }
  }

  /** Drops compose at a cell that lies in no cage. */
  lemma ComposeElsewhere(st: St, D1: set<Drop>, D2: set<Drop>, c: Cell)
    requires Shaped(st) && c in st.poss && !InSomeCage(st.solve, c)
    requires Shaped(ApplyDrops(st, D1))
    ensures ApplyDrops(ApplyDrops(st, D1), D2).poss[c] == ApplyDrops(st, D1 + D2).poss[c]
  {
    var mid := ApplyDrops(st, D1);
    DroppedElsewhere(st, D1, c);
    assert !InSomeCage(mid.solve, c);
    DroppedElsewhere(mid, D2, c);
    DroppedElsewhere(st, D1 + D2, c);
  }

  /**
   * Drops compose: making the drops D1 and then the drops D2 is making
   * the drops D1 + D2 at once. So the order in which the solver visits
   * values, cells and table keys does not change the state it reaches.
   */
  lemma ApplyDropsCompose(st: St, D1: set<Drop>, D2: set<Drop>)
    requires Shaped(st) && Disjoint(st.solve)
    requires forall K :: K in st.solve ==> NoDup(K)
    ensures Shaped(ApplyDrops(st, D1))
    ensures ApplyDrops(ApplyDrops(st, D1), D2) == ApplyDrops(st, D1 + D2)
  {
    ApplyDropsShaped(st, D1);
    var a := ApplyDrops(ApplyDrops(st, D1), D2);
    var b := ApplyDrops(st, D1 + D2);
    FilterSolveCompose(st.solve, D1, D2);
    forall c | c in st.poss ensures a.poss[c] == b.poss[c] {
      if InSomeCage(st.solve, c) {
        var K := OwnerOf(st.solve, c);
        ComposeInCage(st, D1, D2, K, IndexOf(K, c));
      } else {
        ComposeElsewhere(st, D1, D2, c);
      }
    }
    SameState(a, b);
  }

  /** Two states with the same tables are equal. */
  lemma SameState(a: St, b: St)
    requires a.solve == b.solve && a.poss.Keys == b.poss.Keys
    requires forall c :: c in a.poss ==> a.poss[c] == b.poss[c]
    ensures a == b
  {
  }

  /** Drops keep every candidate list strictly increasing. */
  lemma ApplyDropsIncreasing(st: St, D: set<Drop>)
    requires Shaped(st)
    requires forall c :: c in st.poss ==> StrictlyIncreasing(st.poss[c], IntLess)
    ensures forall c :: c in ApplyDrops(st, D).poss ==> StrictlyIncreasing(ApplyDrops(st, D).poss[c], IntLess)
  {
    var r := ApplyDrops(st, D);
    forall c | c in r.poss ensures StrictlyIncreasing(r.poss[c], IntLess) {
      assert r.poss[c] == DroppedAt(st, D, c);
      if InSomeCage(st.solve, c) && Hit(OwnerOf(st.solve, c), D) {
        var K := OwnerOf(st.solve, c);
        CandidatesIncreasing(KeptTuples(K, D, st.solve[K]), IndexOf(K, c));
      }
    }
  }

  /** Drops keep the tables well formed. */
  lemma ApplyDropsWellFormed(size: int, st: St, D: set<Drop>)
    requires WellFormed(size, st)
    ensures WellFormed(size, ApplyDrops(st, D))
  {
    ApplyDropsShaped(st, D);
    ApplyDropsIncreasing(st, D);
    WellFormedSameKeys(size, st, ApplyDrops(st, D));
  }

  /**
   * After the drops, every cage they concern is consistent, and every
   * cage that was consistent still is.
   */
  lemma ApplyDropsConsistent(size: int, st: St, D: set<Drop>)
    requires WellFormed(size, st)
    ensures Shaped(ApplyDrops(st, D))
    ensures forall K :: K in st.solve && (Hit(K, D) || ConsistentAt(st, K)) ==> ConsistentAt(ApplyDrops(st, D), K)
  {
    var r := ApplyDrops(st, D);
    ApplyDropsShaped(st, D);
    forall K | K in st.solve && (Hit(K, D) || ConsistentAt(st, K)) ensures ConsistentAt(r, K) {
      if !Hit(K, D) {
        KeptTuplesNotHit(K, D, st.solve[K]);
      }
      forall i | 0 <= i < |K| ensures K[i] in r.poss && r.poss[K[i]] == Candidates(r.solve[K], i) {
        assert K[i] in Grid(size);
        DroppedInCage(st, D, K, i);
      }
    }
  }

  /** From a consistent state, drops only take candidates away. */
  lemma ApplyDropsShrinks(size: int, st: St, D: set<Drop>)
    requires WellFormed(size, st) && Consistent(st)
    ensures Shrinks(st.poss, ApplyDrops(st, D).poss)
  {
    var r := ApplyDrops(st, D);
    forall c, x | c in st.poss && x in r.poss[c] ensures x in st.poss[c] {
      if InSomeCage(st.solve, c) {
        var K := OwnerOf(st.solve, c);
        var i := IndexOf(K, c);
        DroppedInCage(st, D, K, i);
        assert ConsistentAt(st, K);
        CandidatesSubset(st.solve[K], KeptTuples(K, D, st.solve[K]), i);
      } else {
        DroppedElsewhere(st, D, c);
      }
    }
  }

  /** `[s for s in S if s[i] != v]`: the tuples not putting v at position i. */
  function TuplesWithout(S: seq<seq<int>>, i: nat, v: int): (r: seq<seq<int>>)
    ensures forall t :: t in r <==> t in S && (i < |t| ==> t[i] != v)
  {
    if S == [] then []
    else
      assert S == [S[0]] + S[1..];
      (if i < |S[0]| ==> S[0][i] != v then [S[0]] else []) + TuplesWithout(S[1..], i, v)
  }

  /** Dropping v from cell n of cage K keeps the tuples not putting v at n's position. */
  lemma {:induction false} KeptOne(K: seq<Cell>, S: seq<seq<int>>, v: int, n: Cell)
    requires NoDup(K) && n in K && TuplesFit(K, S)
    ensures KeptTuples(K, {(v, n)}, S) == TuplesWithout(S, IndexOf(K, n), v)
  {
    if S != [] {
      var i := IndexOf(K, n);
      assert S[0] in S;
      forall j | 0 <= j < |K| && K[j] == n ensures j == i {
        IndexOfNoDup(K, j);
      }
      assert Kept(K, {(v, n)}, S[0]) == (i < |S[0]| ==> S[0][i] != v);
      assert forall t :: t in S[1..] ==> t in S;
      KeptOne(K, S[1..], v, n);
    }
  }

  /** Dropping v from cell n changes only the tuples of n's cage K. */
  lemma FilterSolveOne(st: St, K: seq<Cell>, v: int, n: Cell)
    requires Shaped(st) && Disjoint(st.solve) && K in st.solve && NoDup(K) && n in K
    ensures FilterSolve(st.solve, {(v, n)}) == st.solve[K := TuplesWithout(st.solve[K], IndexOf(K, n), v)]
  {
    var D := {(v, n)};
    KeptOne(K, st.solve[K], v, n);
    var a := FilterSolve(st.solve, D);
    var b := st.solve[K := TuplesWithout(st.solve[K], IndexOf(K, n), v)];
    forall K' | K' in st.solve ensures a[K'] == b[K'] {
      if K' != K {
        assert n !in K';
        KeptTuplesNotHit(K', D, st.solve[K']);
      }
    }
  }

  /** Dropping v from cell n of cage K re-derives the candidates of K's
      cells from the tuples that do not put v at n. */
  lemma DropOneAt(st: St, K: seq<Cell>, v: int, n: Cell, j: nat)
    requires Shaped(st) && Disjoint(st.solve) && K in st.solve && NoDup(K) && n in K
    requires j < |K| && K[j] in st.poss
    ensures forall t :: t in TuplesWithout(st.solve[K], IndexOf(K, n), v) ==> j < |t|
    ensures ApplyDrops(st, {(v, n)}).poss[K[j]] == Candidates(TuplesWithout(st.solve[K], IndexOf(K, n), v), j)
  {
    KeptOne(K, st.solve[K], v, n);
    assert Hit(K, {(v, n)}) by { assert (v, n).1 in K; }
    DroppedInCage(st, {(v, n)}, K, j);
  }

  /** Dropping v from cell n of cage K leaves the cells outside K alone. */
  lemma DropOneOutside(st: St, K: seq<Cell>, v: int, n: Cell, c: Cell)
    requires Shaped(st) && Disjoint(st.solve) && K in st.solve && n in K
    requires c in st.poss && c !in K
    ensures ApplyDrops(st, {(v, n)}).poss[c] == st.poss[c]
  {
    DroppedElsewhere(st, {(v, n)}, c);
  }

  /**
   * One iteration of `dropValsFromNodesRow`: dropping v from cell n of
   * cage K is updating K with its tuples that do not put v at n.
   */
  lemma DropOneInCage(st: St, K: seq<Cell>, v: int, n: Cell)
    requires Shaped(st) && Disjoint(st.solve) && K in st.solve && NoDup(K) && n in K
    requires forall c :: c in K ==> c in st.poss
    ensures TuplesFit(K, TuplesWithout(st.solve[K], IndexOf(K, n), v))
    ensures ApplyDrops(st, {(v, n)}) == UpdateCage(st, K, TuplesWithout(st.solve[K], IndexOf(K, n), v))
  {
    var S' := TuplesWithout(st.solve[K], IndexOf(K, n), v);
    var a := ApplyDrops(st, {(v, n)});
    assert TuplesFit(K, S');
    var b := UpdateCage(st, K, S');
    assert a.solve == b.solve by { FilterSolveOne(st, K, v, n); }
    assert a.poss.Keys == b.poss.Keys by { RederiveMeans(st.poss, K, S'); }
    forall c | c in st.poss ensures a.poss[c] == b.poss[c] {
      if c in K {
        var j :| 0 <= j < |K| && K[j] == c;
        DropOneAt(st, K, v, n, j);
        RederiveMeans(st.poss, K, S');
      } else {
        DropOneOutside(st, K, v, n, c);
        RederiveMeans(st.poss, K, S');
      }
    }
    SameState(a, b);
  }

  /** Drops that concern no cage change nothing. */
  lemma ApplyDropsUnhit(st: St, D: set<Drop>)
    requires Shaped(st) && forall K :: K in st.solve ==> !Hit(K, D)
    ensures ApplyDrops(st, D) == st
  {
    var a := ApplyDrops(st, D);
    forall K | K in st.solve ensures a.solve[K] == st.solve[K] {
      KeptTuplesNotHit(K, D, st.solve[K]);
    }
    forall c | c in st.poss ensures a.poss[c] == st.poss[c] {
      DroppedElsewhere(st, D, c);
    }
    SameState(a, st);
  }

  /** Dropping from a cell no cage holds changes nothing. */
  lemma DropOneNowhere(st: St, v: int, n: Cell)
    requires Shaped(st) && !InSomeCage(st.solve, n)
    ensures ApplyDrops(st, {(v, n)}) == st
  {
    forall K | K in st.solve ensures !Hit(K, {(v, n)}) {
      assert n !in K;
    }
    ApplyDropsUnhit(st, {(v, n)});
  }

  /** Drops keep a well-formed consistent state well formed and consistent,
      and only take candidates away. */
  lemma ApplyDropsInvariant(size: int, st: St, D: set<Drop>)
    requires WellFormed(size, st) && Consistent(st)
    ensures WellFormed(size, ApplyDrops(st, D)) && Consistent(ApplyDrops(st, D))
    ensures Shrinks(st.poss, ApplyDrops(st, D).poss)
    ensures ApplyDrops(st, D).solve.Keys == st.solve.Keys
  {
    ApplyDropsWellFormed(size, st, D);
    ApplyDropsConsistent(size, st, D);
    ApplyDropsShrinks(size, st, D);
  }

  /** A dropped value is no longer a candidate of a dropped cell that lies
      in a cage. */
  lemma ApplyDropsRemoves(size: int, st: St, D: set<Drop>)
    requires WellFormed(size, st)
    ensures forall v, n :: (v, n) in D && n in st.poss && InSomeCage(st.solve, n) ==> v !in ApplyDrops(st, D).poss[n]
  {
    var r := ApplyDrops(st, D);
    forall v, n | (v, n) in D && n in st.poss && InSomeCage(st.solve, n) ensures v !in r.poss[n] {
      var K := OwnerOf(st.solve, n);
      var i := IndexOf(K, n);
      assert Hit(K, D) by { assert (v, n).1 in K; }
      DroppedInCage(st, D, K, i);
      var S := KeptTuples(K, D, st.solve[K]);
      forall t | t in S ensures t[i] != v {
        assert Kept(K, D, t);
      }
      CandidatesMeans(S, i, v);
    }
  }

  /** Drops only take tuples away from the assignment lists. */
  lemma ApplyDropsSublists(st: St, D: set<Drop>)
    requires Shaped(st)
    ensures forall K, t :: K in ApplyDrops(st, D).solve && t in ApplyDrops(st, D).solve[K] ==> K in st.solve && t in st.solve[K]
  {
  }
}
