/** Why the theorems about heuristics and proper colourings need constraints
    indexed from both ends. `add_constraint` indexes a constraint under its
    first variable only, so `is_consistent` checks it only when that
    variable is the later of the two to be assigned. On the chain
    `ne(x, y)`, `ne(y, z)` with domains x: [1], y: [1, 2], z: [2], the
    unassigned-list order z, y, x finds no colouring (there is none), while
    MRV's order z, x, y returns one that gives x and y the same colour. */
module OneSidedIndex {
  import opened PyValues
  import opened ConstraintStore
  import opened Search
  import opened SearchTheorems

  /** The three countries, the two colours and the "not equal" handle of the example. */
  datatype Names<V, D, P> = Names(x: V, y: V, z: V, one: D, two: D, ne: P)

  predicate Distinct<V(==), D(==), P>(n: Names<V, D, P>) {
    n.x != n.y && n.y != n.z && n.x != n.z && n.one != n.two
  }

  /** main.py's construction for the chain: z, y, x registered in that order
      with domains [2], [1, 2], [1], then `ne(x, y)` and `ne(y, z)` added once each. */
  function Chain<V(==), D(==), P(==)>(n: Names<V, D, P>): Store<V, D, P> {
    var s := AddVariable(AddVariable(AddVariable(Empty(), n.z, [n.two]), n.y, [n.one, n.two]), n.x, [n.one]);
    AddConstraint(AddConstraint(s, n.ne, [n.x, n.y]).state, n.ne, [n.y, n.z]).state
  }

  /** The same store written out: each constraint sits under its first variable only. */
  function ChainWrittenOut<V(==), D(==), P(==)>(n: Names<V, D, P>): Store<V, D, P> {
    Store(map[n.z := [n.two], n.y := [n.one, n.two], n.x := [n.one]],
          [ConstraintEntry(n.ne, [n.x, n.y]), ConstraintEntry(n.ne, [n.y, n.z])],
          map[n.x := [Arc(n.ne, n.y)], n.y := [Arc(n.ne, n.z)]],
          map[], [n.z, n.y, n.x], 0)
  }

  /** z := 2, the only colour of the first variable in either order. */
  function ZSet<V(==), D(==), P(==)>(n: Names<V, D, P>): Store<V, D, P> {
    ChainWrittenOut(n).(assignments := map[n.z := n.two], unassigned := [n.y, n.x], attempts := 1)
  }

  /** In list order y comes next: y := 1. */
  function YSet<V(==), D(==), P(==)>(n: Names<V, D, P>): Store<V, D, P> {
    ChainWrittenOut(n).(assignments := map[n.z := n.two, n.y := n.one], unassigned := [n.x], attempts := 2)
  }

  /** In MRV order x comes next: x := 1. */
  function XSet<V(==), D(==), P(==)>(n: Names<V, D, P>): Store<V, D, P> {
    ChainWrittenOut(n).(assignments := map[n.z := n.two, n.x := n.one], unassigned := [n.y], attempts := 2)
  }

  /** Then y := 1, and nothing is left. */
  function AllSet<V(==), D(==), P(==)>(n: Names<V, D, P>): Store<V, D, P> {
    ChainWrittenOut(n).(assignments := map[n.z := n.two, n.x := n.one, n.y := n.one], unassigned := [], attempts := 3)
  }

  // ------------------------------------------------------------ the store

  lemma ChainStore<V, D, P>(n: Names<V, D, P>)
    requires Distinct(n)
    ensures Chain(n) == ChainWrittenOut(n) && Wf(ChainWrittenOut(n))
  {
    var c := AddVariable(AddVariable(AddVariable(Empty(), n.z, [n.two]), n.y, [n.one, n.two]), n.x, [n.one]);
    assert c == ChainWrittenOut(n).(index := map[], constraints := []);
    ChainConstraints(n, c);
  }

  /** The two `add_constraint` calls of the chain. */
  lemma ChainConstraints<V, D, P>(n: Names<V, D, P>, c: Store<V, D, P>)
    requires Distinct(n) && Wf(c) && c == ChainWrittenOut(n).(index := map[], constraints := [])
    ensures AddConstraint(AddConstraint(c, n.ne, [n.x, n.y]).state, n.ne, [n.y, n.z]).state == ChainWrittenOut(n)
  {
    var d := AddConstraint(c, n.ne, [n.x, n.y]).state;
    assert Partners(c.index, n.x) + [Arc(n.ne, n.y)] == [Arc(n.ne, n.y)];
    assert c.constraints + [ConstraintEntry(n.ne, [n.x, n.y])] == [ConstraintEntry(n.ne, [n.x, n.y])];
    assert d == c.(index := map[n.x := [Arc(n.ne, n.y)]], constraints := [ConstraintEntry(n.ne, [n.x, n.y])]);
    assert Partners(d.index, n.y) + [Arc(n.ne, n.z)] == [Arc(n.ne, n.z)];
  }

  // ------------------------------------------------------- single steps

  /** What a committed `assign` produces, as one store. */
  lemma Commits<V, D, P>(s: Store<V, D, P>, v: V, value: D, holds: (P, D, D) -> bool, u: seq<V>)
    requires IsConsistent(s, v, value, holds) && v in s.unassigned && RemoveFirst(s.unassigned, v) == u
    ensures Assign(s, v, value, holds)
         == Returned(true, s.(assignments := s.assignments[v := value], unassigned := u, attempts := s.attempts + 1))
  {
  }

  lemma AssignZ<V, D, P>(n: Names<V, D, P>, holds: (P, D, D) -> bool)
    requires Distinct(n)
    ensures Assign(ChainWrittenOut(n), n.z, n.two, holds) == Returned(true, ZSet(n))
  {
    var s := ChainWrittenOut(n);
    assert n.z !in s.index;
    assert RemoveFirst(s.unassigned, n.z) == [n.y, n.x] by {
      assert IndexOf(s.unassigned, n.z) == 0;
      assert s.unassigned[1..] == [n.y, n.x];
    }
    Commits(s, n.z, n.two, holds, [n.y, n.x]);
    assert s.assignments[n.z := n.two] == map[n.z := n.two];
  }

  lemma AssignYInListOrder<V, D(!new), P(!new)>(n: Names<V, D, P>, holds: (P, D, D) -> bool)
    requires Distinct(n) && Differs(holds)
    ensures Assign(ZSet(n), n.y, n.one, holds) == Returned(true, YSet(n))
  {
    var s := ZSet(n);
    assert IsConsistent(s, n.y, n.one, holds) by {
      assert holds(n.ne, n.one, n.two);
      assert s.index[n.y] == [Arc(n.ne, n.z)];
      assert ArcsConsistent([Arc(n.ne, n.z)], s.assignments, n.one, holds);
    }
    assert RemoveFirst(s.unassigned, n.y) == [n.x] by {
      assert IndexOf(s.unassigned, n.y) == 0;
      assert s.unassigned[1..] == [n.x];
    }
    Commits(s, n.y, n.one, holds, [n.x]);
    assert s.assignments[n.y := n.one] == map[n.z := n.two, n.y := n.one];
  }

  lemma AssignXInMrvOrder<V, D, P>(n: Names<V, D, P>, holds: (P, D, D) -> bool)
    requires Distinct(n)
    ensures Assign(ZSet(n), n.x, n.one, holds) == Returned(true, XSet(n))
  {
    var s := ZSet(n);
    assert IsConsistent(s, n.x, n.one, holds) by {
      assert s.index[n.x] == [Arc(n.ne, n.y)];
      assert n.y !in s.assignments;
      assert ArcsConsistent([Arc(n.ne, n.y)], s.assignments, n.one, holds);
    }
    assert RemoveFirst(s.unassigned, n.x) == [n.y] by {
      assert IndexOf(s.unassigned, n.x) == 1 by {
        assert IndexOf(s.unassigned[1..], n.x) == 0;
      }
      assert s.unassigned[..1] == [n.y];
    }
    Commits(s, n.x, n.one, holds, [n.y]);
    assert s.assignments[n.x := n.one] == map[n.z := n.two, n.x := n.one];
  }

  lemma AssignYInMrvOrder<V, D(!new), P(!new)>(n: Names<V, D, P>, holds: (P, D, D) -> bool)
    requires Distinct(n) && Differs(holds)
    ensures Assign(XSet(n), n.y, n.one, holds) == Returned(true, AllSet(n))
  {
    var s := XSet(n);
    assert IsConsistent(s, n.y, n.one, holds) by {
      assert holds(n.ne, n.one, n.two);
      assert s.index[n.y] == [Arc(n.ne, n.z)];
      assert ArcsConsistent([Arc(n.ne, n.z)], s.assignments, n.one, holds);
    }
    assert RemoveFirst(s.unassigned, n.y) == [] by {
      assert IndexOf(s.unassigned, n.y) == 0;
    }
    Commits(s, n.y, n.one, holds, []);
    assert s.assignments[n.y := n.one] == map[n.z := n.two, n.x := n.one, n.y := n.one];
  }

  /** x := 1 is refused once y holds 1, and y := 2 while z holds 2. */
  lemma ListOrderClashes<V, D(!new), P(!new)>(n: Names<V, D, P>, holds: (P, D, D) -> bool)
    requires Distinct(n) && Differs(holds)
    ensures !IsConsistent(YSet(n), n.x, n.one, holds)
    ensures !IsConsistent(ZSet(n), n.y, n.two, holds)
  {
    assert !holds(n.ne, n.one, n.one) && !holds(n.ne, n.two, n.two);
    assert !ArcsConsistent([Arc(n.ne, n.y)], YSet(n).assignments, n.one, holds);
    assert !ArcsConsistent([Arc(n.ne, n.z)], ZSet(n).assignments, n.two, holds);
  }

  /** MRV's choice is unique: the first pending variable of smallest domain. */
  lemma MrvChoiceIsUnique<V, D, P>(s: Store<V, D, P>, v: V, w: V)
    requires Wf(s) && IsMrvChoice(s, v) && IsMrvChoice(s, w)
    ensures v == w
  {
    var i, j := IndexOf(s.unassigned, v), IndexOf(s.unassigned, w);
    assert s.unassigned[i] == v && s.unassigned[j] == w;
  }

  /** MRV starts with z: one colour, first in the list. */
  lemma MrvPicksZ<V, D, P>(n: Names<V, D, P>, h: Heuristics)
    requires Distinct(n) && h.mrv && Wf(ChainWrittenOut(n))
    ensures SelectUnassignedVariable(ChainWrittenOut(n), h) == n.z
  {
    var s := ChainWrittenOut(n);
    assert IndexOf(s.unassigned, n.z) == 0;
    assert |s.domains[n.z]| == 1;
    assert IsMrvChoice(s, n.z);
    MrvChoiceIsUnique(s, n.z, SelectUnassignedVariable(s, h));
  }

  /** Then it takes x (one colour) before y (two). */
  lemma MrvPicksX<V, D, P>(n: Names<V, D, P>, h: Heuristics)
    requires Distinct(n) && h.mrv && Wf(ZSet(n))
    ensures SelectUnassignedVariable(ZSet(n), h) == n.x
  {
    var s := ZSet(n);
    assert IndexOf(s.unassigned, n.x) == 1 by {
      assert IndexOf(s.unassigned[1..], n.x) == 0;
    }
    assert |s.domains[n.x]| == 1 && |s.domains[n.y]| == 2;
    assert IsMrvChoice(s, n.x);
    MrvChoiceIsUnique(s, n.x, SelectUnassignedVariable(s, h));
  }

  // ------------------------------------------------ one level of search

  /** The value loop over a single value fails when that value is refused,
      or when committing it leads to a failing search. */
  lemma SoleValueLoopFails<V, D, P>(s: Store<V, D, P>, h: Heuristics, holds: (P, D, D) -> bool, v: V, values: seq<D>, t: Store<V, D, P>)
    requires Wf(s) && v in s.unassigned && v in s.domains && values == s.domains[v] && |values| == 1
    requires IsConsistent(s, v, values[0], holds) ==>
      Assign(s, v, values[0], holds) == Returned(true, t) && Wf(t) && Backtrack(t, h, holds).0 == None
    ensures TryValues(s, h, holds, v, values, 0).0 == None
  {
    if IsConsistent(s, v, values[0], holds) {
      TryValuesUndoesFailure(s, h, holds, v, values, 0);
    } else {
      TryValuesSkipsInconsistent(s, h, holds, v, values, 0);
    }
  }

  /** The value loop over two values fails when committing the first leads
      to a failing search and the second is refused: undoing the first
      restores the assignments `is_consistent` looks at. */
  lemma FailThenClashLoop<V, D, P>(s: Store<V, D, P>, h: Heuristics, holds: (P, D, D) -> bool, v: V, values: seq<D>, t: Store<V, D, P>)
    requires Wf(s) && v in s.unassigned && v in s.domains && values == s.domains[v] && |values| == 2
    requires IsConsistent(s, v, values[0], holds) && !IsConsistent(s, v, values[1], holds)
    requires Assign(s, v, values[0], holds) == Returned(true, t) && Wf(t) && Backtrack(t, h, holds).0 == None
    ensures TryValues(s, h, holds, v, values, 0).0 == None
  {
    TryValuesUndoesFailure(s, h, holds, v, values, 0);
    var s2 := Backtrack(t, h, holds).1;
    assert s2.assignments == s.assignments[v := values[0]] && s2.index == s.index;
    var s3 := Unassign(s2, [], v).state;
    UpdateThenRemove(s.assignments, v, values[0]);
    RestoredClash(s, s3, v, values[1], holds);
    TryValuesSkipsInconsistent(s3, h, holds, v, values, 1);
  }

  /** `is_consistent` reads only the index and the assignments. */
  lemma RestoredClash<V, D, P>(s: Store<V, D, P>, s3: Store<V, D, P>, v: V, b: D, holds: (P, D, D) -> bool)
    requires s3.index == s.index && s3.assignments == s.assignments
    ensures IsConsistent(s3, v, b, holds) == IsConsistent(s, v, b, holds)
  {
  }

  /** The value loop whose first value is accepted, after which the search
      succeeds, returns that search's map. */
  lemma FirstValueLoopFinds<V, D, P>(s: Store<V, D, P>, h: Heuristics, holds: (P, D, D) -> bool, v: V, values: seq<D>, t: Store<V, D, P>, m: map<V, D>)
    requires Wf(s) && v in s.unassigned && v in s.domains && values == s.domains[v] && |values| > 0
    requires IsConsistent(s, v, values[0], holds)
    requires Assign(s, v, values[0], holds) == Returned(true, t) && Wf(t) && Backtrack(t, h, holds).0 == Some(m)
    ensures TryValues(s, h, holds, v, values, 0).0 == Some(m)
  {
    TryValuesStopsAtSuccess(s, h, holds, v, values, 0);
  }

  /** A search whose chosen variable has the single colour `a` fails when
      `a` is refused, or when committing it leads to a failing search. */
  lemma SoleValueFails<V, D, P>(s: Store<V, D, P>, h: Heuristics, holds: (P, D, D) -> bool, v: V, a: D, t: Store<V, D, P>)
    requires Wf(s) && v in s.unassigned && SelectUnassignedVariable(s, h) == v && s.domains[v] == [a]
    requires IsConsistent(s, v, a, holds) ==> Assign(s, v, a, holds) == Returned(true, t) && Wf(t) && Backtrack(t, h, holds).0 == None
    ensures Backtrack(s, h, holds).0 == None
  {
    BacktrackUnfold(s, h, holds, v);
    var values := s.domains[v];
    SoleValueLoopFails(s, h, holds, v, values, t);
  }

  /** A search whose chosen variable has the colours `[a, b]` fails when
      committing `a` leads to a failing search and `b` is refused. */
  lemma FailThenClash<V, D, P>(s: Store<V, D, P>, h: Heuristics, holds: (P, D, D) -> bool, v: V, a: D, b: D, t: Store<V, D, P>)
    requires Wf(s) && v in s.unassigned && SelectUnassignedVariable(s, h) == v && s.domains[v] == [a, b]
    requires IsConsistent(s, v, a, holds) && !IsConsistent(s, v, b, holds)
    requires Assign(s, v, a, holds) == Returned(true, t) && Wf(t) && Backtrack(t, h, holds).0 == None
    ensures Backtrack(s, h, holds).0 == None
  {
    BacktrackUnfold(s, h, holds, v);
    var values := s.domains[v];
    FailThenClashLoop(s, h, holds, v, values, t);
  }

  /** A search whose chosen variable accepts its first colour, after which
      the search succeeds, returns that search's map. */
  lemma FirstValueFinds<V, D, P>(s: Store<V, D, P>, h: Heuristics, holds: (P, D, D) -> bool, v: V, t: Store<V, D, P>, m: map<V, D>)
    requires Wf(s) && v in s.unassigned && SelectUnassignedVariable(s, h) == v && |s.domains[v]| > 0
    requires IsConsistent(s, v, s.domains[v][0], holds)
    requires Assign(s, v, s.domains[v][0], holds) == Returned(true, t) && Wf(t) && Backtrack(t, h, holds).0 == Some(m)
    ensures Backtrack(s, h, holds).0 == Some(m)
  {
    BacktrackUnfold(s, h, holds, v);
    var values := s.domains[v];
    FirstValueLoopFinds(s, h, holds, v, values, t, m);
  }

  // ---------------------------------------------- unassigned-list order

  /** With z and y set, x has no colour left: its arc sees y's 1. */
  lemma ListOrderDeadEnd<V(!new), D(!new), P(!new)>(n: Names<V, D, P>, h: Heuristics, holds: (P, D, D) -> bool)
    requires Distinct(n) && Differs(holds) && !h.mrv && Wf(YSet(n))
    ensures Backtrack(YSet(n), h, holds).0 == None
  {
    ListOrderClashes(n, holds);
    SoleValueFails(YSet(n), h, holds, n.x, n.one, YSet(n));
  }

  /** After z := 2, neither colour of y leads anywhere. */
  lemma ListOrderFailsAfterZ<V(!new), D(!new), P(!new)>(n: Names<V, D, P>, h: Heuristics, holds: (P, D, D) -> bool)
    requires Distinct(n) && Differs(holds) && !h.mrv && Wf(ZSet(n))
    ensures Backtrack(ZSet(n), h, holds).0 == None
  {
    AssignYInListOrder(n, holds);
    ListOrderDeadEnd(n, h, holds);
    ListOrderClashes(n, holds);
    FailThenClash(ZSet(n), h, holds, n.y, n.one, n.two, YSet(n));
  }

  lemma ListOrderFails<V(!new), D(!new), P(!new)>(n: Names<V, D, P>, h: Heuristics, holds: (P, D, D) -> bool)
    requires Distinct(n) && Differs(holds) && !h.mrv && Wf(ChainWrittenOut(n))
    ensures Backtrack(ChainWrittenOut(n), h, holds).0 == None
  {
    AssignZ(n, holds);
    ListOrderFailsAfterZ(n, h, holds);
    SoleValueFails(ChainWrittenOut(n), h, holds, n.z, n.two, ZSet(n));
  }

  // ------------------------------------------------------------ MRV order

  /** After z := 2 and x := 1 (unchecked: x's only arc points at the
      unassigned y), y := 1 passes, since y's arc only looks at z. */
  lemma MrvCompletesAfterX<V, D(!new), P(!new)>(n: Names<V, D, P>, h: Heuristics, holds: (P, D, D) -> bool)
    requires Distinct(n) && Differs(holds) && Wf(XSet(n))
    ensures Backtrack(XSet(n), h, holds).0 == Some(AllSet(n).assignments)
  {
    AssignYInMrvOrder(n, holds);
    assert IsComplete(AllSet(n));
    FirstValueFinds(XSet(n), h, holds, n.y, AllSet(n), AllSet(n).assignments);
  }

  lemma MrvCompletesAfterZ<V, D(!new), P(!new)>(n: Names<V, D, P>, h: Heuristics, holds: (P, D, D) -> bool)
    requires Distinct(n) && Differs(holds) && h.mrv && Wf(ZSet(n))
    ensures Backtrack(ZSet(n), h, holds).0 == Some(AllSet(n).assignments)
  {
    AssignXInMrvOrder(n, holds);
    MrvCompletesAfterX(n, h, holds);
    MrvPicksX(n, h);
    FirstValueFinds(ZSet(n), h, holds, n.x, XSet(n), AllSet(n).assignments);
  }

  lemma MrvCompletes<V, D(!new), P(!new)>(n: Names<V, D, P>, h: Heuristics, holds: (P, D, D) -> bool)
    requires Distinct(n) && Differs(holds) && h.mrv && Wf(ChainWrittenOut(n))
    ensures Backtrack(ChainWrittenOut(n), h, holds).0 == Some(AllSet(n).assignments)
  {
    AssignZ(n, holds);
    MrvCompletesAfterZ(n, h, holds);
    MrvPicksZ(n, h);
    FirstValueFinds(ChainWrittenOut(n), h, holds, n.z, ZSet(n), AllSet(n).assignments);
  }

  // -------------------------------------------------------------- outcome

  /** The two arcs of the chain, as a satisfying map must respect them. */
  lemma ChainArcs<V, D, P>(n: Names<V, D, P>, holds: (P, D, D) -> bool, e: map<V, D>)
    requires Distinct(n) && Satisfies(ChainWrittenOut(n).index, e, holds)
    ensures n.x in e && n.y in e ==> holds(n.ne, e[n.x], e[n.y])
    ensures n.y in e && n.z in e ==> holds(n.ne, e[n.y], e[n.z])
  {
    var index := ChainWrittenOut(n).index;
    assert Partners(index, n.x)[0] == Arc(n.ne, n.y);
    assert Partners(index, n.y)[0] == Arc(n.ne, n.z);
  }

  /** The chain has no colouring: x must take 1, so y must take 2, which z holds. */
  lemma ChainIsNotColourable<V(!new), D(!new), P(!new)>(n: Names<V, D, P>, holds: (P, D, D) -> bool)
    requires Distinct(n) && Differs(holds)
    ensures !Solvable(ChainWrittenOut(n), holds)
  {
    var s := ChainWrittenOut(n);
    forall e | Extends(s, e, holds) ensures false {
      ChainArcs(n, holds, e);
    }
  }

  /** With a one-sided index the heuristics do change the outcome: the
      search in unassigned-list order fails, as it must on a map with no
      colouring, but with MRV on it returns a map that gives `x` and `y`
      the same colour although `ne(x, y)` was added. */
  lemma MrvChangesOneSidedOutcome<V(!new), D(!new), P(!new)>(n: Names<V, D, P>, plain: Heuristics, mrv: Heuristics, holds: (P, D, D) -> bool)
    requires Distinct(n) && Differs(holds) && !plain.mrv && mrv.mrv
    ensures Wf(Chain(n)) && Chain(n).assignments == map[]
    ensures !Solvable(Chain(n), holds)
    ensures Backtrack(Chain(n), plain, holds).0 == None
    ensures Backtrack(Chain(n), mrv, holds).0 == Some(map[n.z := n.two, n.x := n.one, n.y := n.one])
  {
    ChainStore(n);
    ChainIsNotColourable(n, holds);
    ListOrderFails(n, plain, holds);
    MrvCompletes(n, mrv, holds);
  }
}
