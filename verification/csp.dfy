/** The finite-domain CSP store of map-coloring-main/CSP.py: variables with
    their domains, binary constraints kept both in a flat list and in a
    per-variable index, and the assignment state the search mutates.

    `V` is the type of variable names, `D` the type of domain values and `P`
    the type of predicate handles: every constraint carries a handle, and an
    interpretation `holds: (P, D, D) -> bool` (a pure function supplied by the
    caller) says what the predicate behind a handle answers. */
module ConstraintStore {
  import opened PyValues

  /** One entry of the per-variable index: the Python tuple `(constraint_func, partner)`. */
  datatype Arc<V, P> = Arc(pred: P, partner: V)

  /** The CSP object's state. */
  datatype Store<V, D, P> = Store(
    domains: map<V, seq<D>>,            // self.variables
    constraints: seq<PyValue<V, P>>,    // self.constraints
    index: map<V, seq<Arc<V, P>>>,      // self.var_constraints
    assignments: map<V, D>,             // self.assignments
    unassigned: seq<V>,                 // self.unassigned_var
    attempts: nat                       // self.assignments_number
  )

  /** A freshly constructed CSP: everything empty, no assignment made yet. */
  function Empty<V(==), D(==), P(==)>(): (s: Store<V, D, P>)
    ensures Wf(s)
    ensures s.domains == map[] && s.index == map[] && s.constraints == []
    ensures s.assignments == map[] && s.unassigned == [] && s.attempts == 0
  {
    Store(map[], [], map[], map[], [], 0)
  }

  /** The index entry of `x`, reading an absent entry as an empty list. */
  function Partners<V(==), P(==)>(index: map<V, seq<Arc<V, P>>>, x: V): seq<Arc<V, P>>
  {
    if x in index then index[x] else []
  }

  /** The tuple `(constraint_func, variables)` that `add_constraint` appends to the flat list. */
  function ConstraintEntry<V(==), P(==)>(pred: P, scope: seq<V>): PyValue<V, P>
  {
    PyTuple([Callable(pred), StrList(scope)])
  }

  /** The shape every element of the flat constraint list has. */
  predicate IsConstraintEntry<V(==), P(==)>(c: PyValue<V, P>) {
    c.PyTuple? && |c.elems| == 2 && c.elems[0].Callable? && c.elems[1].PyList?
  }

  predicate NoDuplicates<T(==)>(xs: seq<T>) {
    forall i, j | 0 <= i < j < |xs| :: xs[i] != xs[j]
  }

  /** The store invariant: every registered variable is either assigned or
      pending (in the unassigned list), never both; nothing unregistered is
      in either; the unassigned list holds each variable once; and the flat
      list holds only constraint tuples. */
  predicate Wf<V(==), D(==), P(==)>(s: Store<V, D, P>) {
    && NoDuplicates(s.unassigned)
    && (forall x | x in s.unassigned :: x in s.domains && x !in s.assignments)
    && (forall x | x in s.assignments :: x in s.domains)
    && (forall x | x in s.domains :: x in s.assignments || x in s.unassigned)
    && (forall c | c in s.constraints :: IsConstraintEntry(c))
  }

  // ---------------------------------------------------------------- building

  /** `add_variable`: registers `v` with `domain` and queues it as unassigned,
      unless `v` is already registered, in which case nothing changes. */
  function AddVariable<V(==), D(==), P(==)>(s: Store<V, D, P>, v: V, domain: seq<D>): (r: Store<V, D, P>)
    ensures v in s.domains ==> r == s
    ensures r.domains.Keys == s.domains.Keys + {v}
    ensures v !in s.domains ==> r.domains[v] == domain && r.unassigned == s.unassigned + [v]
    ensures forall x | x in s.domains :: r.domains[x] == s.domains[x]
    ensures r.assignments == s.assignments && r.index == s.index && r.constraints == s.constraints
    ensures r.attempts == s.attempts
    ensures Wf(s) ==> Wf(r)
  {
    if v in s.domains then s
    else s.(domains := s.domains[v := domain], unassigned := s.unassigned + [v])
  }

  /** `add_constraint(pred, scope)`: indexes the constraint under `scope[0]`
      only, as the arc `(pred, scope[1])`, and appends `(pred, scope)` to the
      flat list. A scope with fewer than two names raises IndexError before
      anything is changed. Neither endpoint has to be registered. */
  function AddConstraint<V(==), D(==), P(==)>(s: Store<V, D, P>, pred: P, scope: seq<V>): (r: Outcome<(), Store<V, D, P>>)
    ensures r.Raised? <==> |scope| < 2
    ensures r.Raised? ==> r.error == IndexError && r.state == s
    ensures r.Returned? ==>
      && Partners(r.state.index, scope[0]) == Partners(s.index, scope[0]) + [Arc(pred, scope[1])]
      && (forall z | z in s.index && z != scope[0] :: z in r.state.index && r.state.index[z] == s.index[z])
      && r.state.index.Keys == s.index.Keys + {scope[0]}
      && r.state.constraints == s.constraints + [ConstraintEntry(pred, scope)]
    ensures r.state.domains == s.domains && r.state.assignments == s.assignments
    ensures r.state.unassigned == s.unassigned && r.state.attempts == s.attempts
    ensures Wf(s) ==> Wf(r.state)
  {
    if |scope| < 2 then Raised(IndexError, s)
    else
      var x := scope[0];
      var arcs := Partners(s.index, x) + [Arc(pred, scope[1])];
      Returned((), s.(index := s.index[x := arcs], constraints := s.constraints + [ConstraintEntry(pred, scope)]))
  }

  // ------------------------------------------------------------- consistency

  /** Every arc whose partner is assigned in `a` accepts `value` against the partner's value. */
  ghost predicate AllArcsHold<V, D, P>(arcs: seq<Arc<V, P>>, a: map<V, D>, value: D, holds: (P, D, D) -> bool) {
    forall k | 0 <= k < |arcs| && arcs[k].partner in a :: holds(arcs[k].pred, value, a[arcs[k].partner])
  }

  /** The loop of `is_consistent` over one index entry: stops with false at the
      first arc whose partner is assigned and whose predicate rejects. */
  function ArcsConsistent<V(==), D(==), P(==)>(arcs: seq<Arc<V, P>>, a: map<V, D>, value: D, holds: (P, D, D) -> bool): (r: bool)
    ensures r <==> AllArcsHold(arcs, a, value, holds)
  {
    if arcs == [] then true
    else if arcs[0].partner in a && !holds(arcs[0].pred, value, a[arcs[0].partner]) then false
    else
      var r := ArcsConsistent(arcs[1..], a, value, holds);
      assert forall k | 1 <= k < |arcs| :: arcs[k] == arcs[1..][k - 1];
      r
  }

  /** `is_consistent(v, value)`: only the constraints indexed under `v` are
      consulted, and only those whose partner is already assigned. */
  function IsConsistent<V(==), D(==), P(==)>(s: Store<V, D, P>, v: V, value: D, holds: (P, D, D) -> bool): (r: bool)
    ensures v !in s.index ==> r
    ensures r <==> AllArcsHold(Partners(s.index, v), s.assignments, value, holds)
  {
    if v in s.index then ArcsConsistent(s.index[v], s.assignments, value, holds) else true
  }

  /** `is_complete`. */
  function IsComplete<V(==), D(==), P(==)>(s: Store<V, D, P>): bool {
    |s.unassigned| == 0
  }

  /** `is_assigned`. */
  function IsAssigned<V(==), D(==), P(==)>(s: Store<V, D, P>, v: V): bool {
    v in s.assignments
  }

  /** In a well-formed store, the CSP is complete exactly when every registered variable is assigned. */
  lemma CompleteIffAllAssigned<V, D, P>(s: Store<V, D, P>)
    requires Wf(s)
    ensures IsComplete(s) <==> s.assignments.Keys == s.domains.Keys
  {
    if !IsComplete(s) {
      assert s.unassigned[0] in s.domains;
    }
  }

  /** In a well-formed store, a registered variable is assigned exactly when it is not pending. */
  lemma AssignedIffNotPending<V, D, P>(s: Store<V, D, P>, v: V)
    requires Wf(s) && v in s.domains
    ensures IsAssigned(s, v) <==> v !in s.unassigned
  {
  }

  // -------------------------------------------------------- assign, unassign

  /** Python's `list.index(x)`: the position of the first occurrence of `x`. */
  function IndexOf<T(==)>(xs: seq<T>, x: T): (i: nat)
    requires x in xs
    ensures i < |xs| && xs[i] == x && x !in xs[..i]
  {
    if xs[0] == x then 0
    else
      var j := IndexOf(xs[1..], x);
      assert xs[..j + 1] == [xs[0]] + xs[1..][..j];
      j + 1
  }

  /** Python's `list.remove(x)`: drops the first occurrence of `x`. */
  function RemoveFirst<T(==)>(xs: seq<T>, x: T): (r: seq<T>)
    requires x in xs
    ensures multiset(r) == multiset(xs) - multiset{x}
    ensures |r| == |xs| - 1
  {
    var i := IndexOf(xs, x);
    assert xs == xs[..i] + [x] + xs[i + 1..];
    xs[..i] + xs[i + 1..]
  }

  /** `list.remove(x)` is the list with its first occurrence of `x` cut out:
      everything before that occurrence, then everything after it. */
  lemma RemoveFirstIsListRemove<T>(xs: seq<T>, x: T)
    requires x in xs
    ensures exists i | 0 <= i < |xs| :: xs[i] == x && x !in xs[..i] && RemoveFirst(xs, x) == xs[..i] + xs[i + 1..]
  {
    var i := IndexOf(xs, x);
    assert RemoveFirst(xs, x) == xs[..i] + xs[i + 1..];
  }

  /** `assign(v, value)`: commits only when `is_consistent(v, value)` holds.
      On commit the value is recorded, the first occurrence of `v` leaves the
      unassigned list and the attempt counter grows by one. An inconsistent
      value returns false with nothing changed. A consistent value for a
      variable that is not in the unassigned list raises ValueError from
      `list.remove`, after the value has already been recorded. */
  function Assign<V(==), D(==), P(==)>(s: Store<V, D, P>, v: V, value: D, holds: (P, D, D) -> bool): (r: Outcome<bool, Store<V, D, P>>)
    ensures r == Returned(false, s) <==> !IsConsistent(s, v, value, holds)
    ensures r == Returned(true, r.state) <==> IsConsistent(s, v, value, holds) && v in s.unassigned
    ensures r.Raised? <==> IsConsistent(s, v, value, holds) && v !in s.unassigned
    ensures r.Raised? ==> r.error == ValueError
    ensures r.state.domains == s.domains && r.state.index == s.index && r.state.constraints == s.constraints
    ensures r == Returned(true, r.state) ==>
      && r.state.assignments == s.assignments[v := value]
      && multiset(r.state.unassigned) == multiset(s.unassigned) - multiset{v}
      && r.state.unassigned == RemoveFirst(s.unassigned, v)
      && r.state.attempts == s.attempts + 1
    ensures r.Raised? ==>
      && r.state.assignments == s.assignments[v := value]
      && r.state.unassigned == s.unassigned && r.state.attempts == s.attempts
    ensures Wf(s) && r.Returned? ==> Wf(r.state)
  {
    if !IsConsistent(s, v, value, holds) then Returned(false, s)
    else if v !in s.unassigned then Raised(ValueError, s.(assignments := s.assignments[v := value]))
    else
      var u := RemoveFirst(s.unassigned, v);
      var r := s.(assignments := s.assignments[v := value], unassigned := u, attempts := s.attempts + 1);
      assert Wf(s) ==> Wf(r) by {
        if Wf(s) {
          RemoveFirstKeepsWf(s, v, value);
        }
      }
      Returned(true, r)
  }

  lemma RemoveFirstKeepsWf<V, D, P>(s: Store<V, D, P>, v: V, value: D)
    requires Wf(s) && v in s.unassigned
    ensures Wf(s.(assignments := s.assignments[v := value], unassigned := RemoveFirst(s.unassigned, v), attempts := s.attempts + 1))
  {
    RemoveFirstOfDistinct(s.unassigned, v);
  }

  /** Removing an element from a list without duplicates leaves exactly the other elements, still without duplicates. */
  lemma RemoveFirstOfDistinct<T>(xs: seq<T>, x: T)
    requires NoDuplicates(xs) && x in xs
    ensures NoDuplicates(RemoveFirst(xs, x))
    ensures forall y :: y in RemoveFirst(xs, x) <==> y in xs && y != x
  {
    var i := IndexOf(xs, x);
    var u := xs[..i] + xs[i + 1..];
    assert RemoveFirst(xs, x) == u;
    assert |u| == |xs| - 1;
    forall y ensures y in u <==> y in xs && y != x {
      if y in u {
        var k :| 0 <= k < |u| && u[k] == y;
        if k < i {
          assert u[k] == xs[k];
        } else {
          assert u[k] == xs[k + 1];
        }
      }
      if y in xs && y != x {
        var k :| 0 <= k < |xs| && xs[k] == y;
        if k < i {
          assert u[k] == xs[k];
        } else {
          assert k != i;
          assert u[k - 1] == xs[k];
        }
      }
    }
    forall a, b | 0 <= a < b < |u| ensures u[a] != u[b] {
      var a' := if a < i then a else a + 1;
      var b' := if b < i then b else b + 1;
      assert u[a] == xs[a'] && u[b] == xs[b'];
    }
  }

  /** `unassign(removed_values_from_domain, v)`: appends `v` to the unassigned
      list and then drops it from the assignments. The restoration list is
      ignored: no domain is touched. If `v` is not assigned, the pop raises
      KeyError after the append has happened. */
  function Unassign<V(==), D(==), P(==)>(s: Store<V, D, P>, restore: seq<(V, D)>, v: V): (r: Outcome<(), Store<V, D, P>>)
    ensures r.Raised? <==> v !in s.assignments
    ensures r.Raised? ==> r.error == KeyError
    ensures r.state.assignments == s.assignments - {v}
    ensures r.state.unassigned == s.unassigned + [v]
    ensures r.state.domains == s.domains && r.state.index == s.index && r.state.constraints == s.constraints
    ensures r.state.attempts == s.attempts
    ensures Wf(s) && r.Returned? ==> Wf(r.state)
  {
    var appended := s.(unassigned := s.unassigned + [v]);
    if v in s.assignments then Returned((), appended.(assignments := s.assignments - {v}))
    else Raised(KeyError, appended)
  }

  /** Assigning and then unassigning the same variable restores the
      assignment map exactly and the unassigned list up to order; the domains
      were never touched, so there is nothing for the restoration list to do. */
  lemma AssignUnassignRoundTrip<V, D, P>(s: Store<V, D, P>, v: V, value: D, holds: (P, D, D) -> bool, restore: seq<(V, D)>)
    requires Wf(s)
    requires Assign(s, v, value, holds).Returned? && Assign(s, v, value, holds).value
    ensures Unassign(Assign(s, v, value, holds).state, restore, v).Returned?
    ensures Unassign(Assign(s, v, value, holds).state, restore, v).state.assignments == s.assignments
    ensures multiset(Unassign(Assign(s, v, value, holds).state, restore, v).state.unassigned) == multiset(s.unassigned)
    ensures Unassign(Assign(s, v, value, holds).state, restore, v).state.domains == s.domains
  {
    var s1 := Assign(s, v, value, holds).state;
    var s2 := Unassign(s1, restore, v).state;
    assert v in s.unassigned && v !in s.assignments;
    assert s2.assignments == s.assignments;
  }

  // ------------------------------------------------- what a check guarantees

  /** The arcs of `x` that point at `p` all accept the current values of `x` and `p`. */
  ghost predicate ArcsToHold<V, D, P>(index: map<V, seq<Arc<V, P>>>, a: map<V, D>, x: V, p: V, holds: (P, D, D) -> bool)
    requires x in a && p in a
  {
    forall k | 0 <= k < |Partners(index, x)| && Partners(index, x)[k].partner == p ::
      holds(Partners(index, x)[k].pred, a[x], a[p])
  }

  /** Whichever of `x` and `p` was assigned later checked its own arcs toward the other. */
  ghost predicate PairChecked<V, D, P>(index: map<V, seq<Arc<V, P>>>, a: map<V, D>, x: V, p: V, holds: (P, D, D) -> bool)
    requires x in a && p in a
  {
    ArcsToHold(index, a, x, p, holds) || ArcsToHold(index, a, p, x, holds)
  }

  /** What `is_consistent` guarantees of an assignment map built by successive
      `assign` calls: every pair of distinct assigned variables was checked
      from one side. (An arc from a variable to itself is never checked,
      since the variable is unassigned when its own check runs.) */
  ghost predicate Checked<V, D, P>(index: map<V, seq<Arc<V, P>>>, a: map<V, D>, holds: (P, D, D) -> bool) {
    forall x, p | x in a && p in a && x != p :: PairChecked(index, a, x, p, holds)
  }

  /** A successful `assign` keeps the assignment map `Checked`. */
  lemma AssignKeepsChecked<V, D, P>(s: Store<V, D, P>, v: V, value: D, holds: (P, D, D) -> bool)
    requires v !in s.assignments
    requires IsConsistent(s, v, value, holds)
    requires Checked(s.index, s.assignments, holds)
    ensures Checked(s.index, s.assignments[v := value], holds)
  {
    var a := s.assignments;
    var a' := a[v := value];
    forall x, p | x in a' && p in a' && x != p ensures PairChecked(s.index, a', x, p, holds) {
      if x == v {
        assert ArcsToHold(s.index, a', x, p, holds);
      } else if p == v {
        assert ArcsToHold(s.index, a', p, x, holds);
      } else {
        assert PairChecked(s.index, a, x, p, holds);
        if ArcsToHold(s.index, a, x, p, holds) {
          assert ArcsToHold(s.index, a', x, p, holds);
        } else {
          assert ArcsToHold(s.index, a', p, x, holds);
        }
      }
    }
  }
}
