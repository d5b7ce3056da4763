/** What the backtracking search of map-coloring-main/Solver.py achieves as a
    whole: it finds an extension whenever one exists, with symmetric
    "not equal" constraints it decides colourability exactly, and so neither
    heuristic changes whether a solution is found. */
module SearchTheorems {
  import opened PyValues
  import opened ConstraintStore
  import opened Search

  /** Every arc between two distinct variables of `e` accepts their values in `e`. */
  ghost predicate Satisfies<V, D, P>(index: map<V, seq<Arc<V, P>>>, e: map<V, D>, holds: (P, D, D) -> bool) {
    forall x, k | x in e && 0 <= k < |Partners(index, x)| && Partners(index, x)[k].partner in e && Partners(index, x)[k].partner != x ::
      holds(Partners(index, x)[k].pred, e[x], e[Partners(index, x)[k].partner])
  }

  /** `e` keeps the current assignments, gives every pending variable a value
      of its domain, and satisfies every arc between distinct variables. */
  ghost predicate Extends<V, D, P>(s: Store<V, D, P>, e: map<V, D>, holds: (P, D, D) -> bool) {
    && (forall x | x in s.assignments :: x in e && e[x] == s.assignments[x])
    && (forall x | x in s.unassigned :: x in e && x in s.domains && e[x] in s.domains[x])
    && Satisfies(s.index, e, holds)
  }

  ghost predicate Solvable<V(!new), D(!new), P>(s: Store<V, D, P>, holds: (P, D, D) -> bool) {
    exists e :: Extends(s, e, holds)
  }

  /** Every predicate handle means "not equal", as in the map-colouring instances. */
  ghost predicate Differs<D(!new), P(!new)>(holds: (P, D, D) -> bool) {
    forall f, a, b :: holds(f, a, b) <==> a != b
  }

  ghost predicate HasArcTo<V, P>(index: map<V, seq<Arc<V, P>>>, x: V, p: V) {
    exists k | 0 <= k < |Partners(index, x)| :: Partners(index, x)[k].partner == p
  }

  /** Every arc `x -> p` has a reverse arc `p -> x`, as when every constraint
      is added from both of its endpoints. */
  ghost predicate SymmetricIndex<V, P>(index: map<V, seq<Arc<V, P>>>) {
    forall x, k | x in index && 0 <= k < |Partners(index, x)| :: HasArcTo(index, Partners(index, x)[k].partner, x)
  }

  // ------------------------------------------------------------- soundness

  /** With "not equal" predicates and a symmetric index, a map that passed the
      one-sided checks of `is_consistent` satisfies every arc. */
  lemma CheckedIsSatisfying<V, D(!new), P(!new)>(index: map<V, seq<Arc<V, P>>>, a: map<V, D>, holds: (P, D, D) -> bool)
    requires Differs(holds) && SymmetricIndex(index)
    requires Checked(index, a, holds)
    ensures Satisfies(index, a, holds)
  {
    forall x, k | x in a && 0 <= k < |Partners(index, x)| && Partners(index, x)[k].partner in a && Partners(index, x)[k].partner != x
      ensures holds(Partners(index, x)[k].pred, a[x], a[Partners(index, x)[k].partner])
    {
      var p := Partners(index, x)[k].partner;
      assert PairChecked(index, a, x, p, holds);
      if !ArcsToHold(index, a, x, p, holds) {
        assert ArcsToHold(index, a, p, x, holds);
        assert HasArcTo(index, p, x);
        var j :| 0 <= j < |Partners(index, p)| && Partners(index, p)[j].partner == x;
        assert holds(Partners(index, p)[j].pred, a[p], a[x]);
      }
    }
  }

  /** A solution returned from a fresh store assigns every registered
      variable a value of its domain, and, when every constraint is "not
      equal" and indexed from both ends, gives the two ends of every
      constraint different values. */
  lemma SolutionIsProperColouring<V, D(!new), P(!new)>(s: Store<V, D, P>, h: Heuristics, holds: (P, D, D) -> bool)
    requires Wf(s) && s.assignments == map[]
    requires Differs(holds) && SymmetricIndex(s.index)
    requires Backtrack(s, h, holds).0.Some?
    ensures var a := Backtrack(s, h, holds).0.value;
      && a.Keys == s.domains.Keys
      && (forall x | x in a :: a[x] in s.domains[x])
      && (forall x, k | x in a && 0 <= k < |Partners(s.index, x)| && Partners(s.index, x)[k].partner in a && Partners(s.index, x)[k].partner != x ::
            a[x] != a[Partners(s.index, x)[k].partner])
  {
    var (res, t) := Backtrack(s, h, holds);
    CheckedIsSatisfying(s.index, res.value, holds);
  }

  // ---------------------------------------------------------- completeness

  /** `is_consistent` accepts a value that some satisfying extension gives the variable. */
  lemma ExtensionIsConsistent<V, D, P>(s: Store<V, D, P>, v: V, e: map<V, D>, holds: (P, D, D) -> bool)
    requires Wf(s) && v in s.unassigned && Extends(s, e, holds)
    ensures IsConsistent(s, v, e[v], holds)
  {
    var arcs := Partners(s.index, v);
    forall k | 0 <= k < |arcs| && arcs[k].partner in s.assignments
      ensures holds(arcs[k].pred, e[v], s.assignments[arcs[k].partner])
    {
      assert arcs[k].partner != v;
    }
  }

  /** If some satisfying extension exists, the search finds a solution. */
  lemma BacktrackIsComplete<V, D, P>(s: Store<V, D, P>, h: Heuristics, holds: (P, D, D) -> bool, e: map<V, D>)
    requires Wf(s) && Extends(s, e, holds)
    ensures Backtrack(s, h, holds).0.Some?
    decreases |s.unassigned|, 1
  {
    if !IsComplete(s) {
      var v := SelectUnassignedVariable(s, h);
      BacktrackUnfold(s, h, holds, v);
      LoopIsComplete(s, h, holds, v, e);
    }
  }

  /** The value loop over a pending variable's whole domain finds a solution
      when a satisfying extension exists. */
  lemma LoopIsComplete<V, D, P>(s: Store<V, D, P>, h: Heuristics, holds: (P, D, D) -> bool, v: V, e: map<V, D>)
    requires Wf(s) && v in s.unassigned && Extends(s, e, holds)
    ensures TryValues(s, h, holds, v, s.domains[v], 0).0.Some?
    decreases |s.unassigned|, 0, |s.domains[v]|, 2
  {
    assert e[v] in s.domains[v][0..] by {
      assert s.domains[v][0..] == s.domains[v];
    }
    TryValuesIsComplete(s, h, holds, v, s.domains[v], 0, e);
  }

  /** An incomplete store's search is the value loop over its chosen
      variable's domain, in domain order. */
  lemma BacktrackUnfold<V, D, P>(s: Store<V, D, P>, h: Heuristics, holds: (P, D, D) -> bool, v: V)
    requires Wf(s) && |s.unassigned| > 0 && v == SelectUnassignedVariable(s, h)
    ensures v in s.unassigned && v in s.domains
    ensures Backtrack(s, h, holds) == TryValues(s, h, holds, v, s.domains[v], 0)
  {
  }

  lemma TryValuesIsComplete<V, D, P>(s: Store<V, D, P>, h: Heuristics, holds: (P, D, D) -> bool,
                                      v: V, values: seq<D>, i: nat, e: map<V, D>)
    requires Wf(s) && v in s.unassigned && i <= |values|
    requires forall k | 0 <= k < |values| :: values[k] in s.domains[v]
    requires Extends(s, e, holds) && e[v] in values[i..]
    ensures TryValues(s, h, holds, v, values, i).0.Some?
    decreases |s.unassigned|, 0, |values| - i, 1
  {
    var k :| 0 <= k < |values[i..]| && values[i..][k] == e[v];
    assert values[i + k] == e[v];
    if k == 0 {
      FoundValueSucceeds(s, h, holds, v, values, i, e);
    } else {
      assert values[i + 1..][k - 1] == e[v];
      if !IsConsistent(s, v, values[i], holds) {
        TryValuesIsComplete(s, h, holds, v, values, i + 1, e);
      } else {
        PassedValueKeepsExtension(s, h, holds, v, values, i, e);
      }
    }
  }

  /** Reaching the value the extension gives `v`, the search commits it and
      the recursive call succeeds. */
  lemma FoundValueSucceeds<V, D, P>(s: Store<V, D, P>, h: Heuristics, holds: (P, D, D) -> bool,
                                    v: V, values: seq<D>, i: nat, e: map<V, D>)
    requires Wf(s) && v in s.unassigned && i < |values|
    requires forall k | 0 <= k < |values| :: values[k] in s.domains[v]
    requires Extends(s, e, holds) && values[i] == e[v]
    ensures TryValues(s, h, holds, v, values, i).0.Some?
    decreases |s.unassigned|, 0, |values| - i, 0
  {
    ExtensionIsConsistent(s, v, e, holds);
    var s1 := Assign(s, v, values[i], holds).state;
    assert |s1.unassigned| == |s.unassigned| - 1 by {
      assert |multiset(s1.unassigned)| == |multiset(s.unassigned)| - 1;
    }
    forall x | x in s1.unassigned ensures x in s.unassigned {
      assert x in multiset(s1.unassigned);
    }
    assert Extends(s1, e, holds);
    BacktrackIsComplete(s1, h, holds, e);
    var (res, s2) := Backtrack(s1, h, holds);
    NonEmptyMap(res.value, v);
  }

  /** A consistent value other than the extension's either succeeds or is
      undone, and the extension still extends the restored store. */
  lemma PassedValueKeepsExtension<V, D, P>(s: Store<V, D, P>, h: Heuristics, holds: (P, D, D) -> bool,
                                           v: V, values: seq<D>, i: nat, e: map<V, D>)
    requires Wf(s) && v in s.unassigned && i < |values|
    requires forall k | 0 <= k < |values| :: values[k] in s.domains[v]
    requires Extends(s, e, holds) && e[v] in values[i + 1..]
    requires IsConsistent(s, v, values[i], holds)
    ensures TryValues(s, h, holds, v, values, i).0.Some?
    decreases |s.unassigned|, 0, |values| - i, 0
  {
    var s1 := Assign(s, v, values[i], holds).state;
    assert |s1.unassigned| == |s.unassigned| - 1 by {
      assert |multiset(s1.unassigned)| == |multiset(s.unassigned)| - 1;
    }
    var (res, s2) := Backtrack(s1, h, holds);
    FoundIsTruthy(res, v);
    if !Truthy(res) {
      var s3 := Unassign(s2, [], v).state;
      UndoRestores(s, v, values[i], holds, s1, s2, s3);
      forall x | x in s3.unassigned ensures x in s.unassigned {
        assert x in multiset(s3.unassigned);
      }
      assert Extends(s3, e, holds);
      TryValuesIsComplete(s3, h, holds, v, values, i + 1, e);
    }
  }

  /** On a fresh store whose constraints are "not equal" and indexed from
      both ends, the search returns a solution exactly when a proper
      colouring from the domains exists. */
  lemma BacktrackDecides<V(!new), D(!new), P(!new)>(s: Store<V, D, P>, h: Heuristics, holds: (P, D, D) -> bool)
    requires Wf(s) && s.assignments == map[]
    requires Differs(holds) && SymmetricIndex(s.index)
    ensures Backtrack(s, h, holds).0.Some? <==> Solvable(s, holds)
  {
    var (res, t) := Backtrack(s, h, holds);
    if res.Some? {
      CheckedIsSatisfying(s.index, res.value, holds);
      assert Extends(s, res.value, holds);
    }
    if Solvable(s, holds) {
      var e :| Extends(s, e, holds);
      BacktrackIsComplete(s, h, holds, e);
    }
  }

  /** Switching MRV or LCV on or off never changes whether a solution is found. */
  lemma HeuristicsPreserveSolvability<V(!new), D(!new), P(!new)>(s: Store<V, D, P>, h1: Heuristics, h2: Heuristics, holds: (P, D, D) -> bool)
    requires Wf(s) && s.assignments == map[]
    requires Differs(holds) && SymmetricIndex(s.index)
    ensures Backtrack(s, h1, holds).0.Some? <==> Backtrack(s, h2, holds).0.Some?
  {
    BacktrackDecides(s, h1, holds);
    BacktrackDecides(s, h2, holds);
  }

  // ------------------------------------------------------ value ordering

  /** Only the MRV flag can change the search: LCV keeps the domain order
      and the AC-3 flag is never read, so the whole run, final store
      included, is the same. */
  lemma {:induction false} OnlyMrvFlagMatters<V, D, P>(s: Store<V, D, P>, h1: Heuristics, h2: Heuristics, holds: (P, D, D) -> bool)
    requires Wf(s) && h1.mrv == h2.mrv
    ensures Backtrack(s, h1, holds) == Backtrack(s, h2, holds)
    decreases |s.unassigned|, 1
  {
    if !IsComplete(s) {
      var v := SelectUnassignedVariable(s, h1);
      TryValuesOnlyMrvFlagMatters(s, h1, h2, holds, v, s.domains[v], 0);
    }
  }

  lemma {:induction false} TryValuesOnlyMrvFlagMatters<V, D, P>(s: Store<V, D, P>, h1: Heuristics, h2: Heuristics,
                                                                          holds: (P, D, D) -> bool, v: V, values: seq<D>, i: nat)
    requires Wf(s) && h1.mrv == h2.mrv && v in s.unassigned && i <= |values|
    requires forall k | 0 <= k < |values| :: values[k] in s.domains[v]
    ensures TryValues(s, h1, holds, v, values, i) == TryValues(s, h2, holds, v, values, i)
    decreases |s.unassigned|, 0, |values| - i
  {
    if i < |values| {
      if !IsConsistent(s, v, values[i], holds) {
        TryValuesOnlyMrvFlagMatters(s, h1, h2, holds, v, values, i + 1);
      } else {
        var s1 := Assign(s, v, values[i], holds).state;
        assert |s1.unassigned| == |s.unassigned| - 1 by {
          assert |multiset(s1.unassigned)| == |multiset(s.unassigned)| - 1;
        }
        OnlyMrvFlagMatters(s1, h1, h2, holds);
        var (res, s2) := Backtrack(s1, h1, holds);
        if !Truthy(res) {
          if res.Some? {
            NonEmptyMap(res.value, v);
          }
          var s3 := Unassign(s2, [], v).state;
          UndoRestores(s, v, values[i], holds, s1, s2, s3);
          TryValuesOnlyMrvFlagMatters(s3, h1, h2, holds, v, values, i + 1);
        }
      }
    }
  }

  // ------------------------------------------------- the unconstrained case

  /** Without any constraint, every pending variable gets the first value of
      its domain, whatever the heuristics. */
  lemma {:induction false} UnconstrainedTakesFirstValues<V, D, P>(s: Store<V, D, P>, h: Heuristics, holds: (P, D, D) -> bool)
    requires Wf(s) && s.index == map[]
    requires forall x | x in s.unassigned :: |s.domains[x]| > 0
    ensures Backtrack(s, h, holds).0.Some?
    ensures var a := Backtrack(s, h, holds).0.value;
      forall x | x in a && x !in s.assignments :: a[x] == s.domains[x][0]
    decreases |s.unassigned|
  {
    if !IsComplete(s) {
      var v := SelectUnassignedVariable(s, h);
      var values := OrderedDomainValues(s, v, h);
      var s1 := Assign(s, v, values[0], holds).state;
      assert |s1.unassigned| == |s.unassigned| - 1 by {
        assert |multiset(s1.unassigned)| == |multiset(s.unassigned)| - 1;
      }
      forall x | x in s1.unassigned ensures x in s.unassigned {
        assert x in multiset(s1.unassigned);
      }
      UnconstrainedTakesFirstValues(s1, h, holds);
      UnconstrainedStep(s, h, holds, v, values, s1);
    }
  }

  /** The inductive step of the unconstrained case: the first value is
      committed and the rest of the search keeps first values. */
  lemma UnconstrainedStep<V, D, P>(s: Store<V, D, P>, h: Heuristics, holds: (P, D, D) -> bool, v: V, values: seq<D>, s1: Store<V, D, P>)
    requires Wf(s) && s.index == map[] && !IsComplete(s)
    requires forall x | x in s.unassigned :: |s.domains[x]| > 0
    requires v == SelectUnassignedVariable(s, h) && values == OrderedDomainValues(s, v, h)
    requires s1 == Assign(s, v, values[0], holds).state
    requires Backtrack(s1, h, holds).0.Some?
    requires var a := Backtrack(s1, h, holds).0.value;
      forall x | x in a && x !in s1.assignments :: a[x] == s1.domains[x][0]
    ensures Backtrack(s, h, holds).0.Some?
    ensures var a := Backtrack(s, h, holds).0.value;
      forall x | x in a && x !in s.assignments :: a[x] == s.domains[x][0]
  {
    UnconstrainedUnfold(s, h, holds, v, values, s1);
    var a := Backtrack(s1, h, holds).1.assignments;
    FirstValueStep(s, s1, a, v, values[0]);
  }

  /** With no constraints the first ordered value is committed, and the
      search answers with whatever the recursive call found. */
  lemma UnconstrainedUnfold<V, D, P>(s: Store<V, D, P>, h: Heuristics, holds: (P, D, D) -> bool, v: V, values: seq<D>, s1: Store<V, D, P>)
    requires Wf(s) && s.index == map[] && !IsComplete(s)
    requires forall x | x in s.unassigned :: |s.domains[x]| > 0
    requires v == SelectUnassignedVariable(s, h) && values == OrderedDomainValues(s, v, h)
    requires s1 == Assign(s, v, values[0], holds).state
    requires Backtrack(s1, h, holds).0.Some?
    ensures v !in s.assignments && s1.assignments == s.assignments[v := values[0]] && s1.domains == s.domains
    ensures v in s.domains && |s.domains[v]| > 0 && values[0] == s.domains[v][0]
    ensures Backtrack(s, h, holds).0 == Some(Backtrack(s1, h, holds).1.assignments)
  {
  }

  lemma FirstValueStep<V, D, P>(s: Store<V, D, P>, s1: Store<V, D, P>, a: map<V, D>, v: V, first: D)
    requires v !in s.assignments && s1.assignments == s.assignments[v := first] && s1.domains == s.domains
    requires v in s.domains && |s.domains[v]| > 0 && first == s.domains[v][0]
    requires forall x | x in s1.assignments :: x in a && a[x] == s1.assignments[x]
    requires forall x | x in a && x !in s.assignments :: x in s.domains && |s.domains[x]| > 0
    requires forall x | x in a && x !in s1.assignments :: a[x] == s1.domains[x][0]
    ensures forall x | x in a && x !in s.assignments :: a[x] == s.domains[x][0]
  {
  }
}
