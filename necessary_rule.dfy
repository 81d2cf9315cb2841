// necessaryRuleValues, second half: for each value and axis, the groups
// of coordinate keys of `masterDic` that hold as many cages as lines, and
// the drops each such group makes.

module NecessaryRule {
  import opened Lists
  import opened Itertools
  import opened KenKenClass
  import opened SolverSpec
  import opened Necessary

  // -----------------------------------------------------------------------
  // A group of keys, the way the source walks it
  // -----------------------------------------------------------------------

  /** `reduceIndices`: the lines the keys of a group name together. */
  function UnionOf(c: seq<set<int>>): set<int> {
    if c == [] then {} else UnionOf(c[..|c| - 1]) + c[|c| - 1]
  }

  /** The cages the keys of a group list: `ruleList`, as a set. */
  function RulesOf(m: Master, v: int, axis: int, c: seq<set<int>>): set<seq<Cell>> {
    if c == [] then {} else RulesOf(m, v, axis, c[..|c| - 1]) + Entry(m, (v, axis, c[|c| - 1]))
  }

  /** `len(ruleList)`: the lengths of the keys' cage lists, added up. */
  function RuleCount(m: Master, v: int, axis: int, c: seq<set<int>>): nat {
    if c == [] then 0 else RuleCount(m, v, axis, c[..|c| - 1]) + |Entry(m, (v, axis, c[|c| - 1]))|
  }

  /** Cell n lies in one of the cages R (`isDropNode` is false). */
  ghost predicate InRules(n: Cell, R: set<seq<Cell>>) {
    exists K :: K in R && n in K
  }

  /** `dropNodes` for line `coord` of the axis, as drops of v. */
  ghost function LineDrops(v: int, axis: int, coord: int, R: set<seq<Cell>>, size: nat): set<Drop> {
    set k | 0 <= k < size && !InRules(LineCell(axis, coord, k), R) :: (v, LineCell(axis, coord, k))
  }

  /** The drops of v at the cells of the lines cs of the axis that lie
      outside the cages R. */
  ghost function LinesDrops(v: int, axis: int, cs: set<int>, R: set<seq<Cell>>, size: nat): set<Drop> {
    set coord, k | coord in cs && 0 <= k < size && !InRules(LineCell(axis, coord, k), R) :: (v, LineCell(axis, coord, k))
  }

  /** The drops one group of keys makes: none unless its cages are as
      many as its lines. */
  ghost function GroupDrops(m: Master, size: nat, v: int, axis: int, c: seq<set<int>>): set<Drop> {
    if |UnionOf(c)| == RuleCount(m, v, axis, c) then LinesDrops(v, axis, UnionOf(c), RulesOf(m, v, axis, c), size) else {}
  }

  /** What each group of keys drops. */
  type GroupFn = seq<set<int>> -> set<Drop>

  /** GroupDrops for value v along the axis. */
  ghost function GroupOf(m: Master, size: nat, v: int, axis: int): GroupFn {
    c => GroupDrops(m, size, v, axis, c)
  }

  /** The drops of the groups cs, one after the other. */
  ghost function CombosDrops(f: GroupFn, cs: seq<seq<set<int>>>): set<Drop> {
    if cs == [] then {} else CombosDrops(f, cs[..|cs| - 1]) + f(cs[|cs| - 1])
  }

  /** The drops of the groups of 1 .. j - 1 keys from the key list ks. */
  ghost function LevelsDrops(f: GroupFn, ks: seq<set<int>>, j: nat): set<Drop> {
    if j <= 1 then {} else LevelsDrops(f, ks, j - 1) + CombosDrops(f, Combinations(ks, j - 1))
  }

  // -----------------------------------------------------------------------
  // The same, independent of the order of the keys
  // -----------------------------------------------------------------------

  /** The elements of a list. */
  ghost function Elems<T>(s: seq<T>): set<T> {
    set x | x in s
  }

  /** The coordinate sets the table holds for value v on the axis:
      the keys of `masterDic[v][axis]`. */
  ghost function KeysOf(m: Master, v: int, axis: int): set<set<int>> {
    set e | e in m && e.0 == v && e.1 == axis :: e.2
  }

  /** The lines a set of keys names. */
  ghost function UnionSet(G: set<set<int>>): set<int> {
    set coord, g | g in G && coord in g :: coord
  }

  /** The cages a set of keys lists. */
  ghost function RulesSet(m: Master, v: int, axis: int, G: set<set<int>>): set<seq<Cell>> {
    set K, g | g in G && K in Entry(m, (v, axis, g)) :: K
  }

  /** A set of 1 .. size - 1 keys whose cages are as many as their lines. */
  ghost predicate Fires(m: Master, size: nat, v: int, axis: int, G: set<set<int>>) {
    G <= KeysOf(m, v, axis) && 1 <= |G| < size && |UnionSet(G)| == |RulesSet(m, v, axis, G)|
  }

  /** Every drop of value v along the axis. */
  ghost function AxisDrops(m: Master, size: nat, v: int, axis: int): set<Drop> {
    set G, coord, k | G <= KeysOf(m, v, axis) && Fires(m, size, v, axis, G) && coord in UnionSet(G) && 0 <= k < size
      && !InRules(LineCell(axis, coord, k), RulesSet(m, v, axis, G)) :: (v, LineCell(axis, coord, k))
  }

  /** The values the table has keys for: the keys of `masterDic`. */
  ghost function Values(m: Master): set<int> {
    set e | e in m :: e.0
  }

  /** What the rule drops for each value and axis. */
  type AxisFn = (int, int) -> set<Drop>

  /** AxisDrops on the table m. */
  ghost function AxisOf(m: Master, size: nat): AxisFn {
    (v, axis) => AxisDrops(m, size, v, axis)
  }

  /** The drops of value v on the axes before i. */
  ghost function AxesDrops(f: AxisFn, v: int, i: int): set<Drop> {
    set axis, d | 0 <= axis < i && d in f(v, axis) :: d
  }

  /** The drops for the values vs, on both axes. */
  ghost function ValuesDrops(f: AxisFn, vs: set<int>): set<Drop> {
    set v, axis, d | v in vs && 0 <= axis < 2 && d in f(v, axis) :: d
  }

  /** Every drop of `necessaryRuleValues` on the table m. */
  ghost function NecessaryDrops(m: Master, size: nat): set<Drop> {
    ValuesDrops(AxisOf(m, size), Values(m))
  }

  // -----------------------------------------------------------------------
  // What the folds mean
  // -----------------------------------------------------------------------

  lemma {:induction false} UnionOfMeans(c: seq<set<int>>, x: int)
    ensures x in UnionOf(c) <==> exists g :: g in c && x in g
  {
    if c != [] {
      UnionOfMeans(c[..|c| - 1], x);
      assert forall g :: g in c <==> g in c[..|c| - 1] || g == c[|c| - 1] by {
        assert c == c[..|c| - 1] + [c[|c| - 1]];
      }
    }
  }

  lemma {:induction false} RulesOfMeans(m: Master, v: int, axis: int, c: seq<set<int>>, K: seq<Cell>)
    ensures K in RulesOf(m, v, axis, c) <==> exists g :: g in c && K in Entry(m, (v, axis, g))
  {
    if c != [] {
      RulesOfMeans(m, v, axis, c[..|c| - 1], K);
      assert forall g :: g in c <==> g in c[..|c| - 1] || g == c[|c| - 1] by {
        assert c == c[..|c| - 1] + [c[|c| - 1]];
      }
    }
  }

  /** A list without repeats, its last element dropped, has none, and its
      last element is not among the others. */
  lemma NoDupLast<T>(s: seq<T>)
    requires NoDup(s) && s != []
    ensures NoDup(s[..|s| - 1]) && s[|s| - 1] !in s[..|s| - 1]
  {
    var init := s[..|s| - 1];
    forall i, j | 0 <= i < j < |init| ensures init[i] != init[j] {
      assert init[i] == s[i] && init[j] == s[j];
    }
    forall i | 0 <= i < |init| ensures init[i] != s[|s| - 1] {
      assert init[i] == s[i];
    }
  }

  /** A list without repeats has as many elements as its length. */
  lemma {:induction false} NoDupCard<T>(s: seq<T>)
    requires NoDup(s)
    ensures |Elems(s)| == |s|
  {
    if s != [] {
      var init := s[..|s| - 1];
      NoDupLast(s);
      NoDupCard(init);
      assert Elems(s) == Elems(init) + {s[|s| - 1]} by {
        assert s == init + [s[|s| - 1]];
      }
    }
  }

  /** A key outside the list c shares no cage with the keys of c. */
  lemma KeysDisjoint(m: Master, st: St, v: int, axis: int, c: seq<set<int>>, g: set<int>)
    requires Describes(m, st) && g !in c
    ensures RulesOf(m, v, axis, c) * Entry(m, (v, axis, g)) == {}
  {
    forall K | K in RulesOf(m, v, axis, c) ensures K !in Entry(m, (v, axis, g)) {
      RulesOfMeans(m, v, axis, c, K);
      var g' :| g' in c && K in Entry(m, (v, axis, g'));
      if K in Entry(m, (v, axis, g)) {
        OneKeyPerCage(m, st, v, axis, g', g, K);
        assert false;
      }
    }
  }

  /** Under a table that describes a state, distinct keys of a value and
      axis list no cage in common, so `len(ruleList)` counts cages. */
  lemma {:induction false} RuleCountIsCages(m: Master, st: St, v: int, axis: int, c: seq<set<int>>)
    requires Describes(m, st) && NoDup(c)
    ensures RuleCount(m, v, axis, c) == |RulesOf(m, v, axis, c)|
  {
    if c != [] {
      var init, last := c[..|c| - 1], c[|c| - 1];
      NoDupLast(c);
      RuleCountIsCages(m, st, v, axis, init);
      KeysDisjoint(m, st, v, axis, init, last);
      var A, B := RulesOf(m, v, axis, init), Entry(m, (v, axis, last));
      assert |A + B| == |A| + |B|;
    }
  }

  /** For a group without repeated keys the fold agrees with the set form:
      the same lines, the same cages, and as many cages as counted. */
  lemma GroupIsSet(m: Master, st: St, v: int, axis: int, c: seq<set<int>>)
    requires Describes(m, st) && NoDup(c)
    ensures UnionOf(c) == UnionSet(Elems(c))
    ensures RulesOf(m, v, axis, c) == RulesSet(m, v, axis, Elems(c))
    ensures RuleCount(m, v, axis, c) == |RulesSet(m, v, axis, Elems(c))|
    ensures |Elems(c)| == |c|
  {
    forall x ensures x in UnionOf(c) <==> x in UnionSet(Elems(c)) {
      UnionOfMeans(c, x);
    }
    forall K ensures K in RulesOf(m, v, axis, c) <==> K in RulesSet(m, v, axis, Elems(c)) {
      RulesOfMeans(m, v, axis, c, K);
    }
    RuleCountIsCages(m, st, v, axis, c);
    NoDupCard(c);
  }

  lemma {:induction false} CombosWithin(f: GroupFn, cs: seq<seq<set<int>>>, S: set<Drop>)
    requires forall c :: c in cs ==> f(c) <= S
    ensures CombosDrops(f, cs) <= S
  {
    if cs != [] {
      assert cs[|cs| - 1] in cs;
      assert forall c :: c in cs[..|cs| - 1] ==> c in cs;
      CombosWithin(f, cs[..|cs| - 1], S);
    }
  }

  lemma {:induction false} CombosHas(f: GroupFn, cs: seq<seq<set<int>>>, c: seq<set<int>>)
    requires c in cs
    ensures f(c) <= CombosDrops(f, cs)
  {
    if c != cs[|cs| - 1] {
      assert cs == cs[..|cs| - 1] + [cs[|cs| - 1]];
      CombosHas(f, cs[..|cs| - 1], c);
    }
  }

  lemma LevelsNone(f: GroupFn, ks: seq<set<int>>, j: nat)
    requires j <= 1
    ensures LevelsDrops(f, ks, j) == {}
  {
  }

  lemma {:induction false} LevelsWithin(f: GroupFn, ks: seq<set<int>>, j: nat, S: set<Drop>)
    requires forall n: nat, c :: 1 <= n < j && c in Combinations(ks, n) ==> f(c) <= S
    ensures LevelsDrops(f, ks, j) <= S
  {
    if j > 1 {
      LevelsWithin(f, ks, j - 1, S);
      CombosWithin(f, Combinations(ks, j - 1), S);
    }
  }

  lemma {:induction false} LevelsHas(f: GroupFn, ks: seq<set<int>>, n: nat, j: nat)
    requires 1 <= n < j
    ensures CombosDrops(f, Combinations(ks, n)) <= LevelsDrops(f, ks, j)
  {
    if n < j - 1 {
      LevelsHas(f, ks, n, j - 1);
      SubsetUnion(CombosDrops(f, Combinations(ks, n)), LevelsDrops(f, ks, j - 1), CombosDrops(f, Combinations(ks, j - 1)));
    } else {
      InUnion(LevelsDrops(f, ks, j - 1), CombosDrops(f, Combinations(ks, n)));
    }
  }

  lemma SubsetUnion<T>(A: set<T>, B: set<T>, C: set<T>)
    requires A <= B
    ensures A <= B + C
  {
  }

  lemma InUnion<T>(B: set<T>, C: set<T>)
    ensures C <= B + C
  {
  }

  /** Every drop of a group of keys of the table is a drop of the rule. */
  lemma GroupSound(m: Master, st: St, size: nat, v: int, axis: int, ks: seq<set<int>>, n: nat, c: seq<set<int>>)
    requires Describes(m, st) && NoDup(ks) && (forall g :: g in ks ==> g in KeysOf(m, v, axis))
    requires 1 <= n < size && c in Combinations(ks, n)
    ensures GroupDrops(m, size, v, axis, c) <= AxisDrops(m, size, v, axis)
  {
    CombinationSound(ks, n, c);
    GroupIsSet(m, st, v, axis, c);
    var G := Elems(c);
    if Fires(m, size, v, axis, G) {
      forall d | d in GroupDrops(m, size, v, axis, c) ensures d in AxisDrops(m, size, v, axis) {
        var coord, k :| coord in UnionSet(G) && 0 <= k < size && !InRules(LineCell(axis, coord, k), RulesSet(m, v, axis, G))
          && d == (v, LineCell(axis, coord, k));
      }
    }
  }

  /** The source's walk over the groups of 1 .. size - 1 keys, in the order
      of the key list, drops exactly the rule's drops for v on the axis. */
  lemma AxisDropsOrder(m: Master, st: St, size: nat, v: int, axis: int, ks: seq<set<int>>)
    requires Describes(m, st) && NoDup(ks) && (forall g :: g in ks <==> g in KeysOf(m, v, axis))
    ensures LevelsDrops(GroupOf(m, size, v, axis), ks, size) == AxisDrops(m, size, v, axis)
  {
    var f, A := GroupOf(m, size, v, axis), AxisDrops(m, size, v, axis);
    forall n: nat, c | 1 <= n < size && c in Combinations(ks, n) ensures f(c) <= A {
      GroupSound(m, st, size, v, axis, ks, n, c);
    }
    LevelsWithin(f, ks, size, A);
    forall d | d in A ensures d in LevelsDrops(f, ks, size) {
      var G, coord, k :| G <= KeysOf(m, v, axis) && Fires(m, size, v, axis, G) && coord in UnionSet(G) && 0 <= k < size
        && !InRules(LineCell(axis, coord, k), RulesSet(m, v, axis, G)) && d == (v, LineCell(axis, coord, k));
      CombinationComplete(ks, G);
      var c :| c in Combinations(ks, |G|) && (forall x :: x in c <==> x in G);
      CombinationSound(ks, |G|, c);
      assert Elems(c) == G;
      GroupIsSet(m, st, v, axis, c);
      assert d in f(c);
      CombosHas(f, Combinations(ks, |G|), c);
      LevelsHas(f, ks, |G|, size);
    }
  }

  // -----------------------------------------------------------------------
  // Values and axes, one at a time
  // -----------------------------------------------------------------------

  lemma AxesNone(f: AxisFn, v: int)
    ensures AxesDrops(f, v, 0) == {}
  {
  }

  lemma AxesStep(f: AxisFn, v: int, i: nat)
    ensures AxesDrops(f, v, i + 1) == AxesDrops(f, v, i) + f(v, i)
  {
    forall d | d in f(v, i) ensures d in AxesDrops(f, v, i + 1) {
      assert 0 <= i < i + 1 && d in f(v, i);
    }
  }

  lemma ValuesNone(f: AxisFn)
    ensures ValuesDrops(f, {}) == {}
  {
  }

  lemma ValuesStep(f: AxisFn, vs: set<int>, v: int)
    ensures ValuesDrops(f, vs + {v}) == ValuesDrops(f, vs) + AxesDrops(f, v, 2)
  {
    forall d | d in AxesDrops(f, v, 2) ensures d in ValuesDrops(f, vs + {v}) {
      var axis :| 0 <= axis < 2 && d in f(v, axis);
      assert v in vs + {v} && d in f(v, axis);
    }
    forall d | d in ValuesDrops(f, vs + {v}) ensures d in ValuesDrops(f, vs) || d in AxesDrops(f, v, 2) {
      var w, axis :| w in vs + {v} && 0 <= axis < 2 && d in f(w, axis);
      if w != v {
        assert w in vs;
      }
    }
  }

  // -----------------------------------------------------------------------
  // The rule in terms of the state
  // -----------------------------------------------------------------------

  /** The keys of `masterDic[v][axis]` are the coordinate sets of the
      unsolved cages whose every assignment holds v. */
  lemma TableKeys(st: St, v: int, axis: int, g: set<int>)
    ensures g in KeysOf(MasterOf(st), v, axis) <==>
      exists K :: K in st.solve && Unsolved(st.poss, K) && CageEntry(K, st.solve[K], v, axis, g)
  {
    var m := MasterOf(st);
    MasterOfDescribes(st);
    if g in KeysOf(m, v, axis) {
      var K :| K in m[(v, axis, g)];
      DescribesAt(m, st, st.solve.Keys, (v, axis, g), K);
    }
    if exists K :: K in st.solve && Unsolved(st.poss, K) && CageEntry(K, st.solve[K], v, axis, g) {
      var K :| K in st.solve && Unsolved(st.poss, K) && CageEntry(K, st.solve[K], v, axis, g);
      DescribesAt(m, st, st.solve.Keys, (v, axis, g), K);
    }
  }

  /** The cages a set of keys lists are the unsolved cages whose every
      assignment holds v and whose lines along the axis form one of the keys:
      a cage with an assignment lacking v, or with every cell solved, is
      never counted. */
  lemma TableRules(st: St, v: int, axis: int, G: set<set<int>>, K: seq<Cell>)
    ensures K in RulesSet(MasterOf(st), v, axis, G) <==>
      K in st.solve && Unsolved(st.poss, K) && (axis == 0 || axis == 1) && Necessary.Necessary(st.solve[K], v)
      && Coords(K, st.solve[K], v, axis) in G
  {
    var m := MasterOf(st);
    MasterOfDescribes(st);
    if K in RulesSet(m, v, axis, G) {
      var g :| g in G && K in Entry(m, (v, axis, g));
      DescribesAt(m, st, st.solve.Keys, (v, axis, g), K);
    }
    if K in st.solve && Unsolved(st.poss, K) && (axis == 0 || axis == 1) && Necessary.Necessary(st.solve[K], v)
      && Coords(K, st.solve[K], v, axis) in G
    {
      var g := Coords(K, st.solve[K], v, axis);
      DescribesAt(m, st, st.solve.Keys, (v, axis, g), K);
    }
  }

  /** The rule drops v at a cell exactly when the cell lies on one of
      the lines of a set of 1 .. size - 1 keys of v whose cages are as many
      as their lines, and in none of those cages. */
  lemma NecessaryDropsMeans(m: Master, size: nat, v: int, n: Cell)
    ensures (v, n) in NecessaryDrops(m, size) <==>
      exists axis, G, coord, k :: 0 <= axis < 2 && Fires(m, size, v, axis, G) && coord in UnionSet(G) && 0 <= k < size
        && !InRules(LineCell(axis, coord, k), RulesSet(m, v, axis, G)) && n == LineCell(axis, coord, k)
  {
    var f := AxisOf(m, size);
    if (v, n) in NecessaryDrops(m, size) {
      var w, axis :| w in Values(m) && 0 <= axis < 2 && (v, n) in f(w, axis);
      assert (v, n) in AxisDrops(m, size, w, axis);
    }
    if exists axis, G, coord, k :: 0 <= axis < 2 && Fires(m, size, v, axis, G) && coord in UnionSet(G) && 0 <= k < size
        && !InRules(LineCell(axis, coord, k), RulesSet(m, v, axis, G)) && n == LineCell(axis, coord, k)
    {
      var axis, G, coord, k :| 0 <= axis < 2 && Fires(m, size, v, axis, G) && coord in UnionSet(G) && 0 <= k < size
        && !InRules(LineCell(axis, coord, k), RulesSet(m, v, axis, G)) && n == LineCell(axis, coord, k);
      var g :| g in G;
      assert g in KeysOf(m, v, axis);
      var e :| e in m && e.0 == v && e.1 == axis && e.2 == g;
      assert v in Values(m);
      assert (v, n) in f(v, axis);
    }
  }

  /** Once the rule's drops are made, a cell on the lines of a firing set
      of keys and outside its cages no longer holds v. */
  lemma NecessaryRuleRemoves(size: nat, st: St, v: int, axis: int, G: set<set<int>>, coord: int, k: int)
    requires WellFormed(size, st)
    requires 0 <= axis < 2 && Fires(MasterOf(st), size, v, axis, G) && coord in UnionSet(G) && 0 <= k < size
    requires !InRules(LineCell(axis, coord, k), RulesSet(MasterOf(st), v, axis, G))
    requires LineCell(axis, coord, k) in st.poss && InSomeCage(st.solve, LineCell(axis, coord, k))
    ensures v !in ApplyDrops(st, NecessaryDrops(MasterOf(st), size)).poss[LineCell(axis, coord, k)]
  {
    var D := NecessaryDrops(MasterOf(st), size);
    NecessaryDropsMeans(MasterOf(st), size, v, LineCell(axis, coord, k));
    ApplyDropsRemoves(size, st, D);
  }

  // -----------------------------------------------------------------------
  // Lines one at a time, and drops made in turn
  // -----------------------------------------------------------------------

  lemma LinesNone(v: int, axis: int, R: set<seq<Cell>>, size: nat)
    ensures LinesDrops(v, axis, {}, R, size) == {}
  {
  }

  /** One more line adds that line's drops. */
  lemma LinesStep(v: int, axis: int, cs: set<int>, coord: int, R: set<seq<Cell>>, size: nat)
    ensures LinesDrops(v, axis, cs + {coord}, R, size) == LinesDrops(v, axis, cs, R, size) + LineDrops(v, axis, coord, R, size)
  {
    forall d | d in LineDrops(v, axis, coord, R, size) ensures d in LinesDrops(v, axis, cs + {coord}, R, size) {
      var k :| 0 <= k < size && !InRules(LineCell(axis, coord, k), R) && d == (v, LineCell(axis, coord, k));
      assert coord in cs + {coord};
    }
    forall d | d in LinesDrops(v, axis, cs + {coord}, R, size)
      ensures d in LinesDrops(v, axis, cs, R, size) || d in LineDrops(v, axis, coord, R, size)
    {
      var c, k :| c in cs + {coord} && 0 <= k < size && !InRules(LineCell(axis, c, k), R) && d == (v, LineCell(axis, c, k));
      if c != coord {
        assert c in cs;
      }
    }
  }

  /** Drops made after drops D, from a well-formed state, are drops made
      together with D. */
  lemma DropsMore(size: int, st0: St, D: set<Drop>, E: set<Drop>)
    requires WellFormed(size, st0)
    ensures WellFormed(size, ApplyDrops(st0, D))
    ensures ApplyDrops(ApplyDrops(st0, D), E) == ApplyDrops(st0, D + E)
  {
    ApplyDropsWellFormed(size, st0, D);
    ApplyDropsCompose(st0, D, E);
  }

  lemma UnionAssoc<T>(A: set<T>, B: set<T>, C: set<T>)
    ensures (A + B) + C == A + (B + C)
  {
  }

  /** One more group of the walk, added to the drops made before it. */
  lemma CombosStep(D0: set<Drop>, f: GroupFn, cs: seq<seq<set<int>>>, q: nat)
    requires q < |cs|
    ensures D0 + CombosDrops(f, cs[..q + 1]) == (D0 + CombosDrops(f, cs[..q])) + f(cs[q])
  {
    assert cs[..q + 1][..q] == cs[..q];
    UnionAssoc(D0, CombosDrops(f, cs[..q]), f(cs[q]));
  }

  /** Before the walk over the groups of one size nothing more is dropped. */
  lemma CombosStart(D1: set<Drop>, f: GroupFn, cs: seq<seq<set<int>>>)
    ensures D1 + CombosDrops(f, cs[..0]) == D1
  {
    assert cs[..0] == [];
  }

  /** One more size of group, added to the drops made before it: the walk
      over all of `cs`, the groups of j keys. */
  lemma LevelsStep(D0: set<Drop>, f: GroupFn, ks: seq<set<int>>, j: nat, cs: seq<seq<set<int>>>)
    requires 1 <= j && cs == Combinations(ks, j)
    ensures D0 + LevelsDrops(f, ks, j + 1) == (D0 + LevelsDrops(f, ks, j)) + CombosDrops(f, cs[..|cs|])
  {
    assert cs[..|cs|] == cs;
    UnionAssoc(D0, LevelsDrops(f, ks, j), CombosDrops(f, Combinations(ks, j)));
  }
}
