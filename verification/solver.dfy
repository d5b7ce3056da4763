/** The recursive backtracking search of map-coloring-main/Solver.py over the
    store of `ConstraintStore`, with its variable-ordering (MRV) and
    value-ordering (LCV) heuristics and the arc-reduction stub it calls after
    every successful assignment. */
module Search {
  import opened PyValues
  import opened Sorting
  import opened ConstraintStore

  /** The Solver's flags: `domain_heuristics` switches LCV on,
      `variable_heuristics` switches MRV on, and `AC_3` is stored but never read. */
  datatype Heuristics = Heuristics(lcv: bool, mrv: bool, ac3: bool)

  // ------------------------------------------------------ variable ordering

  /** The list `[(u, len(self.csp.variables[u])) for u in us]` that MRV sorts. */
  function DomainSizes<V(==), D, P>(s: Store<V, D, P>, us: seq<V>): seq<(V, nat)>
    requires forall u | u in us :: u in s.domains
  {
    seq(|us|, i requires 0 <= i < |us| => (us[i], |s.domains[us[i]]|))
  }

  /** `v` is the first variable of the unassigned list whose domain is as short as any. */
  ghost predicate IsMrvChoice<V, D, P>(s: Store<V, D, P>, v: V)
    requires Wf(s)
  {
    && v in s.unassigned
    && (forall u | u in s.unassigned :: |s.domains[v]| <= |s.domains[u]|)
    && (forall j | 0 <= j < IndexOf(s.unassigned, v) :: |s.domains[s.unassigned[j]]| > |s.domains[v]|)
  }

  /** `MRV`: sorts the pending variables stably by domain length and takes the head. */
  function Mrv<V(==), D, P>(s: Store<V, D, P>): (v: V)
    requires Wf(s) && |s.unassigned| > 0
    ensures IsMrvChoice(s, v)
  {
    var keyed := DomainSizes(s, s.unassigned);
    var sorted := SortByKey(keyed);
    SortHeadIsFirstMinimum(keyed);
    MrvHead(s, keyed, sorted);
    sorted[0].0
  }

  lemma MrvHead<V, D, P>(s: Store<V, D, P>, keyed: seq<(V, nat)>, sorted: seq<(V, nat)>)
    requires Wf(s) && |s.unassigned| > 0
    requires keyed == DomainSizes(s, s.unassigned) && sorted == SortByKey(keyed)
    requires exists i :: IsFirstMinimum(keyed, i) && sorted[0] == keyed[i]
    ensures IsMrvChoice(s, sorted[0].0)
  {
    var i :| IsFirstMinimum(keyed, i) && sorted[0] == keyed[i];
    var v := sorted[0].0;
    assert s.unassigned[i] == v;
    forall u | u in s.unassigned ensures |s.domains[v]| <= |s.domains[u]| {
      var k :| 0 <= k < |s.unassigned| && s.unassigned[k] == u;
      assert keyed[k].1 == |s.domains[u]|;
    }
    var first := IndexOf(s.unassigned, v);
    assert first == i;
    forall j | 0 <= j < first ensures |s.domains[s.unassigned[j]]| > |s.domains[v]| {
      assert keyed[j].1 == |s.domains[s.unassigned[j]]|;
    }
  }

  /** `select_unassigned_variable`: MRV's choice when MRV is on, else the head of the unassigned list. */
  function SelectUnassignedVariable<V(==), D, P>(s: Store<V, D, P>, h: Heuristics): (v: V)
    requires Wf(s) && |s.unassigned| > 0
    ensures v in s.unassigned && v in s.domains && v !in s.assignments
    ensures h.mrv ==> IsMrvChoice(s, v)
    ensures !h.mrv ==> v == s.unassigned[0]
  {
    if h.mrv then Mrv(s) else s.unassigned[0]
  }

  // --------------------------------------------------------- value ordering

  /** LCV's membership test `(variable, y) in self.csp.constraints`: a pair of
      names compared, with Python's `==`, against every stored `(func, [x, y])`. */
  function ListedAsPair<V(==), D, P(==)>(s: Store<V, D, P>, variable: V, y: V): bool
  {
    PyTuple([Str(variable), Str(y)]) in s.constraints
  }

  /** Since the flat list only holds `(callable, list)` tuples, a pair of names is never found in it. */
  lemma NoPairIsListed<V, D, P>(s: Store<V, D, P>, variable: V, y: V)
    requires Wf(s)
    ensures !ListedAsPair(s, variable, y)
  {
  }

  /** LCV's counter for one colour: the pending `y` (in list order, with
      repetition) for which `(variable, y)` is listed and `color` is in `y`'s domain. */
  function ConflictCount<V(==), D(==), P(==)>(s: Store<V, D, P>, variable: V, color: D, ys: seq<V>): nat
    requires forall y | y in ys :: y in s.domains
  {
    if ys == [] then 0
    else
      (if ListedAsPair(s, variable, ys[0]) && color in s.domains[ys[0]] then 1 else 0)
      + ConflictCount(s, variable, color, ys[1..])
  }

  /** In a well-formed store every LCV counter is zero. */
  lemma {:induction false} ConflictCountIsZero<V, D, P>(s: Store<V, D, P>, variable: V, color: D, ys: seq<V>)
    requires Wf(s) && forall y | y in ys :: y in s.domains
    ensures ConflictCount(s, variable, color, ys) == 0
    decreases |ys|
  {
    if ys != [] {
      NoPairIsListed(s, variable, ys[0]);
      ConflictCountIsZero(s, variable, color, ys[1..]);
    }
  }

  /** The list `[(color, counter) for color in domain]` that LCV sorts. */
  function CountedDomain<V(==), D(==), P(==)>(s: Store<V, D, P>, variable: V): seq<(D, nat)>
    requires Wf(s) && variable in s.domains
  {
    CountEach(s, variable, s.domains[variable])
  }

  /** The counting loop of LCV over `colors`, appending `(color, counter)` in order. */
  function CountEach<V(==), D(==), P(==)>(s: Store<V, D, P>, variable: V, colors: seq<D>): (r: seq<(D, nat)>)
    requires Wf(s)
    ensures |r| == |colors|
    ensures forall i | 0 <= i < |colors| :: r[i].0 == colors[i] && r[i].1 == ConflictCount(s, variable, colors[i], s.unassigned)
  {
    if colors == [] then []
    else
      var n := |colors| - 1;
      CountEach(s, variable, colors[..n]) + [(colors[n], ConflictCount(s, variable, colors[n], s.unassigned))]
  }

  /** `[value[0] for value in ordered_domain]`. */
  function Firsts<T>(xs: seq<(T, nat)>): (r: seq<T>)
    ensures |r| == |xs|
    ensures forall i | 0 <= i < |xs| :: r[i] == xs[i].0
  {
    if xs == [] then [] else Firsts(xs[..|xs| - 1]) + [xs[|xs| - 1].0]
  }

  /** `LCV`: the domain stably sorted by counter. Every counter is zero, so
      the stable sort keeps the domain's own order. */
  function Lcv<V(==), D(==), P(==)>(s: Store<V, D, P>, variable: V): (r: seq<D>)
    requires Wf(s) && variable in s.domains
    ensures r == s.domains[variable]
  {
    LcvKeepsDomainOrder(s, variable);
    Firsts(SortByKey(CountedDomain(s, variable)))
  }

  lemma LcvKeepsDomainOrder<V, D, P>(s: Store<V, D, P>, variable: V)
    requires Wf(s) && variable in s.domains
    ensures Firsts(SortByKey(CountedDomain(s, variable))) == s.domains[variable]
  {
    var keyed := CountedDomain(s, variable);
    forall i | 0 <= i < |keyed| ensures keyed[i].1 == 0 {
      ConflictCountIsZero(s, variable, s.domains[variable][i], s.unassigned);
    }
    UniformKeysAreNotReordered(keyed, 0);
    assert Firsts(keyed) == s.domains[variable];
  }

  /** `ordered_domain_value`: LCV's order when LCV is on, else the domain itself;
      both are the domain in its own order. */
  function OrderedDomainValues<V(==), D(==), P(==)>(s: Store<V, D, P>, v: V, h: Heuristics): (r: seq<D>)
    requires Wf(s) && v in s.domains
    ensures r == s.domains[v]
  {
    if h.lcv then Lcv(s, v) else s.domains[v]
  }

  // ------------------------------------------------------------ arc reduction

  /** The local `consistent(x, y)` of `backtrack_solver`: Python's `!=`. */
  function Consistent<V(==), P(==)>(x: PyValue<V, P>, y: PyValue<V, P>): bool {
    x != y
  }

  /** `arc_reduce`: its body is empty, so it returns `None` and changes nothing. */
  function ArcReduce<V, D, P>(s: Store<V, D, P>, x: V, y: V, consistent: bool): (r: (Option<seq<D>>, Store<V, D, P>))
    ensures r.0 == None && r.1 == s
  {
    (None, s)
  }

  /** The loop after a successful `assign`: `arc_reduce(var, partner, consistent(var, arc))`
      for every arc indexed under `var`, threading the store through. */
  function ReduceNeighbours<V(==), D, P(==)>(s: Store<V, D, P>, v: V, arcs: seq<Arc<V, P>>): (r: Store<V, D, P>)
    ensures r == s
  {
    if arcs == [] then s
    else
      var arc := arcs[0];
      var (_, s') := ArcReduce(s, v, arc.partner, Consistent(Str(v), PyTuple([Callable(arc.pred), Str(arc.partner)])));
      ReduceNeighbours(s', v, arcs[1..])
  }

  // ------------------------------------------------------------------ search

  /** What a successful search leaves behind: the returned map is the store's
      assignment map; every registered variable is assigned; what was assigned
      on entry is kept; every new value comes from its variable's domain; and
      each newly assigned variable cost at least one counted `assign`. */
  ghost predicate Solved<V, D, P>(s: Store<V, D, P>, a: map<V, D>, t: Store<V, D, P>) {
    && a == t.assignments
    && t.unassigned == []
    && a.Keys == s.domains.Keys
    && (forall x | x in s.assignments :: x in a && a[x] == s.assignments[x])
    && (forall x | x in a && x !in s.assignments :: a[x] in s.domains[x])
    && t.attempts >= s.attempts + |s.unassigned|
  }

  /** The contract of the search, from store `s` to result `res` and final store `t`. */
  ghost predicate SearchPost<V, D, P>(s: Store<V, D, P>, res: Option<map<V, D>>, t: Store<V, D, P>, holds: (P, D, D) -> bool) {
    && Wf(t)
    // no domain is ever pruned and no constraint changes
    && t.domains == s.domains && t.index == s.index && t.constraints == s.constraints
    && t.attempts >= s.attempts
    // failure undoes every assignment it made
    && (res.None? ==> t.assignments == s.assignments && multiset(t.unassigned) == multiset(s.unassigned))
    && (res.Some? ==> Solved(s, res.value, t))
    // every value was committed through is_consistent
    && (Checked(s.index, s.assignments, holds) ==> Checked(t.index, t.assignments, holds))
  }

  /** `backtrack_solver`: returns the assignment map at once when the CSP is
      complete; otherwise picks a variable and tries its ordered values. */
  function Backtrack<V(==), D(==), P(==)>(s: Store<V, D, P>, h: Heuristics, holds: (P, D, D) -> bool): (r: (Option<map<V, D>>, Store<V, D, P>))
    requires Wf(s)
    ensures IsComplete(s) ==> r == (Some(s.assignments), s)
    ensures SearchPost(s, r.0, r.1, holds)
    decreases |s.unassigned|, 1
  {
    if IsComplete(s) then
      CompleteIffAllAssigned(s);
      (Some(s.assignments), s)
    else
      var v := SelectUnassignedVariable(s, h);
      TryValues(s, h, holds, v, OrderedDomainValues(s, v, h), 0)
  }

  /** The `for item in ordered_domain_value(var)` loop of `backtrack_solver`
      from position `i` on. A consistent value is assigned (which always
      succeeds, since `is_consistent` was just checked and `v` is pending),
      the arc-reduction stub runs, and the search recurses; a truthy result
      is returned at once, anything else is undone with `unassign`. */
  function TryValues<V(==), D(==), P(==)>(s: Store<V, D, P>, h: Heuristics, holds: (P, D, D) -> bool, v: V, values: seq<D>, i: nat)
    : (r: (Option<map<V, D>>, Store<V, D, P>))
    requires Wf(s) && v in s.unassigned && i <= |values|
    requires forall k | 0 <= k < |values| :: values[k] in s.domains[v]
    ensures SearchPost(s, r.0, r.1, holds)
    decreases |s.unassigned|, 0, |values| - i
  {
    if i == |values| then (None, s)
    else if !IsConsistent(s, v, values[i], holds) then TryValues(s, h, holds, v, values, i + 1)
    else
      var committed := Assign(s, v, values[i], holds);
      assert committed == Returned(true, committed.state);
      var s1 := ReduceNeighbours(committed.state, v, Partners(s.index, v));
      assert |s1.unassigned| == |s.unassigned| - 1 by {
        assert |multiset(s1.unassigned)| == |multiset(s.unassigned)| - 1;
      }
      var (res, s2) := Backtrack(s1, h, holds);
      FoundIsTruthy(res, v);
      if Truthy(res) then
        SuccessStep(s, v, values[i], holds, s1, res.value, s2);
        (Some(s2.assignments), s2)
      else
        var s3 := Unassign(s2, [], v).state;
        assert |s3.unassigned| == |s.unassigned| by {
          assert |multiset(s2.unassigned)| == |multiset(s1.unassigned)|;
        }
        var r := TryValues(s3, h, holds, v, values, i + 1);
        FailureStep(s, v, values[i], holds, s1, s2, s3, r.0, r.1);
        r
  }

  /** A value that fails `is_consistent` is skipped: the loop goes on with the next one. */
  lemma TryValuesSkipsInconsistent<V, D, P>(s: Store<V, D, P>, h: Heuristics, holds: (P, D, D) -> bool, v: V, values: seq<D>, i: nat)
    requires Wf(s) && v in s.unassigned && i < |values|
    requires forall k | 0 <= k < |values| :: values[k] in s.domains[v]
    requires !IsConsistent(s, v, values[i], holds)
    ensures TryValues(s, h, holds, v, values, i) == TryValues(s, h, holds, v, values, i + 1)
  {
  }

  /** A consistent value is committed with `assign`, and when the recursive
      search from there returns a (truthy) map, the loop returns at once with
      that map and the store the recursion left. */
  lemma TryValuesStopsAtSuccess<V, D, P>(s: Store<V, D, P>, h: Heuristics, holds: (P, D, D) -> bool, v: V, values: seq<D>, i: nat)
    requires Wf(s) && v in s.unassigned && i < |values|
    requires forall k | 0 <= k < |values| :: values[k] in s.domains[v]
    requires IsConsistent(s, v, values[i], holds)
    ensures Assign(s, v, values[i], holds).Returned? && Wf(Assign(s, v, values[i], holds).state)
    ensures var (res, s2) := Backtrack(Assign(s, v, values[i], holds).state, h, holds);
      res.Some? ==> TryValues(s, h, holds, v, values, i) == (Some(s2.assignments), s2)
  {
    var s1 := Assign(s, v, values[i], holds).state;
    var (res, s2) := Backtrack(s1, h, holds);
    FoundIsTruthy(res, v);
  }

  /** When the recursive search after committing a consistent value fails,
      the value is undone with `unassign` (which cannot raise, since the failed
      search left `v` assigned) and the loop goes on with the next value from
      the restored store. */
  lemma TryValuesUndoesFailure<V, D, P>(s: Store<V, D, P>, h: Heuristics, holds: (P, D, D) -> bool, v: V, values: seq<D>, i: nat)
    requires Wf(s) && v in s.unassigned && i < |values|
    requires forall k | 0 <= k < |values| :: values[k] in s.domains[v]
    requires IsConsistent(s, v, values[i], holds)
    ensures Assign(s, v, values[i], holds).Returned? && Wf(Assign(s, v, values[i], holds).state)
    ensures var (res, s2) := Backtrack(Assign(s, v, values[i], holds).state, h, holds);
      res.None? ==>
        && Unassign(s2, [], v).Returned?
        && TryValues(s, h, holds, v, values, i) == TryValues(Unassign(s2, [], v).state, h, holds, v, values, i + 1)
  {
    var s1 := Assign(s, v, values[i], holds).state;
    var (res, s2) := Backtrack(s1, h, holds);
    FoundIsTruthy(res, v);
  }

  /** A found map holding `k` is truthy, so a falsy result is `None`. */
  lemma FoundIsTruthy<K, W>(res: Option<map<K, W>>, k: K)
    requires res.Some? ==> k in res.value
    ensures res.Some? <==> Truthy(res)
  {
    if res.Some? {
      NonEmptyMap(res.value, k);
    }
  }

  lemma NonEmptyMap<K, W>(m: map<K, W>, k: K)
    requires k in m
    ensures |m| > 0
  {
    assert k in m.Keys;
  }

  /** A successful recursive call after committing `v := value` is a success of the whole loop. */
  lemma SuccessStep<V, D, P>(s: Store<V, D, P>, v: V, value: D, holds: (P, D, D) -> bool, s1: Store<V, D, P>, a: map<V, D>, s2: Store<V, D, P>)
    requires Wf(s) && v in s.unassigned && value in s.domains[v]
    requires IsConsistent(s, v, value, holds)
    requires Assign(s, v, value, holds) == Returned(true, s1)
    requires SearchPost(s1, Some(a), s2, holds)
    ensures SearchPost(s, Some(a), s2, holds)
  {
    assert |s1.unassigned| == |s.unassigned| - 1 by {
      assert |multiset(s1.unassigned)| == |multiset(s.unassigned)| - 1;
    }
    if Checked(s.index, s.assignments, holds) {
      AssignKeepsChecked(s, v, value, holds);
    }
  }

  /** Undoing a committed value after a failed recursive call gives back the
      assignment map and the multiset of pending variables of before. */
  lemma UndoRestores<V, D, P>(s: Store<V, D, P>, v: V, value: D, holds: (P, D, D) -> bool,
                              s1: Store<V, D, P>, s2: Store<V, D, P>, s3: Store<V, D, P>)
    requires Wf(s) && v in s.unassigned
    requires Assign(s, v, value, holds) == Returned(true, s1)
    requires SearchPost(s1, None, s2, holds)
    requires s3 == Unassign(s2, [], v).state
    ensures s3.assignments == s.assignments
    ensures multiset(s3.unassigned) == multiset(s.unassigned) && |s3.unassigned| == |s.unassigned|
    ensures s3.domains == s.domains && s3.index == s.index && s3.constraints == s.constraints
    ensures s3.attempts > s.attempts
    ensures Wf(s3)
  {
    var u, u1, u2, u3 := s.unassigned, s1.unassigned, s2.unassigned, s3.unassigned;
    assert multiset(u1) == multiset(u) - multiset{v};
    ReinsertRestores(u, u1, u2, u3, v);
    assert v !in s.assignments;
    assert s2.assignments == s1.assignments == s.assignments[v := value];
    UpdateThenRemove(s.assignments, v, value);
  }

  /** A failed recursive call, undone by `unassign`, followed by the rest of the loop. */
  lemma FailureStep<V, D, P>(s: Store<V, D, P>, v: V, value: D, holds: (P, D, D) -> bool,
                             s1: Store<V, D, P>, s2: Store<V, D, P>, s3: Store<V, D, P>,
                             res: Option<map<V, D>>, t: Store<V, D, P>)
    requires Wf(s) && v in s.unassigned
    requires Assign(s, v, value, holds) == Returned(true, s1)
    requires SearchPost(s1, None, s2, holds)
    requires s3 == Unassign(s2, [], v).state
    requires SearchPost(s3, res, t, holds)
    ensures SearchPost(s, res, t, holds)
  {
    UndoRestores(s, v, value, holds, s1, s2, s3);
    if res.Some? {
      assert Solved(s3, res.value, t);
    }
  }

  lemma ReinsertRestores<T>(u: seq<T>, u1: seq<T>, u2: seq<T>, u3: seq<T>, v: T)
    requires v in u
    requires multiset(u1) == multiset(u) - multiset{v} && multiset(u2) == multiset(u1) && u3 == u2 + [v]
    ensures multiset(u3) == multiset(u) && |u3| == |u|
  {
    assert multiset(u3) == multiset(u2) + multiset{v};
    assert v in multiset(u);
  }

  lemma UpdateThenRemove<K, W>(m: map<K, W>, k: K, x: W)
    requires k !in m
    ensures m[k := x] - {k} == m
  {
  }
}
