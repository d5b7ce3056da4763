# Map colouring as a constraint satisfaction problem — a Dafny model

The Python program colours a map so that bordering countries differ. It
does this with two classes:

- `CSP` (map-coloring-main/CSP.py) is a mutable constraint store. It holds:
  - a domain list per variable;
  - a flat list of `(predicate, [x, y])` constraints;
  - an index from a variable to the `(predicate, partner)` pairs registered under it;
  - the assignment dictionary;
  - the ordered list of unassigned variables;
  - an attempt counter.
- `Solver` (map-coloring-main/Solver.py) is a recursive backtracking search over that store. Two switches select its heuristics:
  - MRV: minimum remaining values, for choosing the variable;
  - LCV: least constraining value, for ordering the values.

This project models both classes as pure functions over an immutable `Store`
record, and proves what the search achieves.

Modules:

- `PyValues` (pyvalues.dfy) holds the few Python notions the code relies on:
  - an outcome that is either a return value or a raised `KeyError`,
    `ValueError` or `IndexError`, each with the state at that moment;
  - the truthiness of an optional dictionary;
  - the shape of the tuples and lists stored in the constraint list.
- `Sorting` (sorting.dfy) is the stable sort by an integer key that
  `list.sort(key=...)` performs, proved to be:
  - a permutation;
  - sorted;
  - stable;
  - the identity on uniform keys;
  - headed by the first minimum.
- `ConstraintStore` (csp.dfy) models the `CSP` class. Each of its operations
  that returns normally keeps the well-formedness invariant `Wf`, under which
  every registered variable is either assigned or pending, never both. The
  raising paths promise only the state they leave, which need not be well
  formed. For example, `assign` of a variable that was never registered
  records its value before `list.remove` raises.
- `Search` (solver.dfy) models the `Solver` class:
  - variable selection;
  - value ordering;
  - the arc-reduction stub;
  - `backtrack_solver` with its value loop.
  The search is a pair of mutually recursive functions whose contract
  `SearchPost` says:
  - what a success leaves behind;
  - that a failure restores the assignments and the set of pending variables;
  - that no domain is ever pruned.
- `MapInstance` (map_instance.dfy) models how map-coloring-main/main.py fills a CSP from a
  border map. It proves that a symmetric border map yields the symmetric index the
  colourability theorem needs.
- `OneSidedIndex` (one_sided_index.dfy) shows why that symmetry is needed. On a
  three-country chain whose constraints are each added once, the plain search
  correctly finds no colouring, but with MRV on it returns a map that breaks a
  constraint.
- `SearchTheorems` (solver_theorems.dfy) holds statements about whole searches:
  - completeness;
  - decision of colourability for "not equal" constraints indexed from both ends,
    where colourable means every constraint between two different countries is met;
  - irrelevance of the heuristics to solvability, from a fresh store whose
    "not equal" constraints are indexed from both ends;
  - irrelevance of the LCV and AC-3 switches to the result.

Predicates are opaque handles `P`, and a single interpretation
`holds: (P, D, D) -> bool` gives them their meaning. Variables, values and
handles are type parameters.

The model follows the code where the code departs from its documented design:

- a constraint is indexed only under its first variable;
- `unassign` ignores its list of values to restore;
- `arc_reduce` has no body, so the search never prunes a domain;
- LCV's test `(variable, y) in self.csp.constraints` compares a pair of
  strings with `(function, [x, y])` tuples. It never matches, so every count is zero and LCV keeps
  the domain order (`Search.NoPairIsListed`).

## Model

| member | source | states |
|---|---|---|
| ConstraintStore.Empty | map-coloring-main/CSP.py:35-40 | a fresh store has no variables, constraints, index entries, assignments or pending variables, its attempt counter is zero, and it is well formed |
| ConstraintStore.AddVariable | map-coloring-main/CSP.py:76-78 | re-adding a registered variable changes nothing; otherwise the domain is recorded and the variable goes to the end of the unassigned list; assignments, index, constraint list and attempt counter are unchanged and well-formedness is kept |
| ConstraintStore.AddConstraint | map-coloring-main/CSP.py:54-58 | a scope shorter than two raises IndexError with nothing changed; otherwise `(f, y)` is appended to x's index entry (created if absent), every other index entry is untouched, `(f, [x, y])` is appended to the constraint list, and well-formedness is kept |
| ConstraintStore.ArcsConsistent | map-coloring-main/CSP.py:116-120 | the loop over an index entry answers true exactly when every arc whose partner is assigned accepts the value against the partner's value |
| ConstraintStore.IsConsistent | map-coloring-main/CSP.py:115-120 | true when the variable has no index entry; false exactly when some arc under it has an assigned partner whose predicate rejects the value; unassigned partners are ignored |
| ConstraintStore.CompleteIffAllAssigned | map-coloring-main/CSP.py:130 | `IsComplete` (`is_complete`): in a well-formed store, the unassigned list is empty exactly when every registered variable is assigned |
| ConstraintStore.AssignedIffNotPending | map-coloring-main/CSP.py:144 | `IsAssigned` (`is_assigned`): a registered variable is a key of the assignments exactly when it is not in the unassigned list |
| ConstraintStore.RemoveFirst | map-coloring-main/CSP.py:96 | `list.remove` takes out one occurrence of the element: the multiset loses exactly that element and the length drops by one |
| ConstraintStore.RemoveFirstIsListRemove | map-coloring-main/CSP.py:96 | the occurrence taken out is the first one: the result is the elements before the first occurrence followed by those after it |
| ConstraintStore.Assign | map-coloring-main/CSP.py:94-99 | returns true exactly when `is_consistent` holds (and the variable is pending); then the value is recorded, the first occurrence leaves the unassigned list while the rest of the list keeps its order, and the counter grows by one; an inconsistent value returns false with the store unchanged; a consistent value for a variable not pending raises ValueError after recording it; well-formedness is kept |
| ConstraintStore.Unassign | map-coloring-main/CSP.py:158-159 | the variable is appended to the unassigned list and removed from the assignments, raising KeyError when it was not assigned; domains, index, constraints and counter are untouched and well-formedness is kept |
| ConstraintStore.AssignUnassignRoundTrip | map-coloring-main/CSP.py:158-159 | undoing a successful assign restores the assignments, the domains and the multiset of pending variables |
| ConstraintStore.AssignKeepsChecked | map-coloring-main/CSP.py:94-99 | committing a value that passed `is_consistent` keeps the invariant that, for every assigned pair, the arcs in at least one direction accept their values |
| Sorting.SortByKey | map-coloring-main/Solver.py:115 | sorting by key yields a permutation of the input, of the same length, ordered by key |
| Sorting.SortIsStable | map-coloring-main/Solver.py:115 | for every key, the elements with that key keep their relative order |
| Sorting.UniformKeysAreNotReordered | map-coloring-main/Solver.py:138 | when all keys are equal the sort returns its input unchanged |
| Sorting.SortHeadIsFirstMinimum | map-coloring-main/Solver.py:115-116 | the head of the sorted list is the earliest element of minimal key |
| Search.Mrv | map-coloring-main/Solver.py:111-116 | MRV picks a pending variable whose domain is smallest, and the earliest such one in unassigned-list order |
| Search.SelectUnassignedVariable | map-coloring-main/Solver.py:60-62 | the chosen variable is pending and registered; with MRV it is the MRV choice, without MRV it is the head of the unassigned list |
| Search.NoPairIsListed | map-coloring-main/Solver.py:135 | a pair of names is never an element of a well-formed constraint list, whose elements are `(function, list)` tuples |
| Search.ConflictCountIsZero | map-coloring-main/Solver.py:133-136 | in a well-formed store, LCV's counter is zero for every colour, because its membership test of a pair of names against the constraint list never matches |
| Search.LcvKeepsDomainOrder | map-coloring-main/Solver.py:137-139 | the colours of the sorted `(colour, counter)` list are the domain in its own order |
| Search.Lcv | map-coloring-main/Solver.py:130-139 | LCV returns the variable's domain in its own order |
| Search.OrderedDomainValues | map-coloring-main/Solver.py:74-76 | the values are tried in domain order whether LCV is on or off |
| Search.ArcReduce | map-coloring-main/Solver.py:80-90 | `arc_reduce` has only a docstring, so it returns `None` and leaves the store as it was |
| Search.ReduceNeighbours | map-coloring-main/Solver.py:36-38 | running the arc-reduction stub over every arc of the assigned variable, with `Search.Consistent` (the local `consistent`, Python's `!=`) as its argument, leaves the store as it was |
| Search.Backtrack | map-coloring-main/Solver.py:28-32 | a complete store returns its own assignments at once; otherwise a success returns a total assignment that extends the entry one, takes every new value from its domain and passed `is_consistent`, while a failure restores the assignments and the multiset of pending variables; no domain, index entry or constraint ever changes |
| Search.TryValues | map-coloring-main/Solver.py:32-47 | the value loop, from any position, meets the same success and failure contract as the whole search |
| Search.TryValuesSkipsInconsistent | map-coloring-main/Solver.py:32-33 | a value that fails `is_consistent` is skipped and the loop goes on with the next one |
| Search.TryValuesStopsAtSuccess | map-coloring-main/Solver.py:33-42 | a consistent value is committed by `assign`, and when the recursive search from there returns a map, the loop returns that map and that store at once |
| Search.TryValuesUndoesFailure | map-coloring-main/Solver.py:33-45 | when the recursive search after a committed value fails, `unassign` does not raise, and the loop goes on with the next value from the store it leaves |
| SearchTheorems.CheckedIsSatisfying | map-coloring-main/CSP.py:115-120 | with "not equal" predicates indexed from both ends, one-sided checks of `is_consistent` give a map that satisfies every arc between two different variables |
| SearchTheorems.SolutionIsProperColouring | map-coloring-main/Solver.py:41-42 | from a fresh store with "not equal" predicates in which every arc has its reverse, a solution assigns every variable a value of its domain, and the two ends of every constraint between two different variables get different values |
| SearchTheorems.BacktrackIsComplete | map-coloring-main/Solver.py:32-47 | whenever some extension of the current assignments satisfies every arc between two different variables, the search returns a solution |
| SearchTheorems.BacktrackDecides | map-coloring-main/Solver.py:25-47 | from a fresh store with "not equal" predicates indexed from both ends, the search succeeds exactly when some map giving every variable a value of its domain satisfies every constraint between two different variables |
| SearchTheorems.HeuristicsPreserveSolvability | map-coloring-main/Solver.py:60-76 | from a fresh store with "not equal" predicates in which every arc has its reverse, switching MRV or LCV on or off never changes whether a solution is found |
| SearchTheorems.OnlyMrvFlagMatters | map-coloring-main/Solver.py:18-20 | two searches whose settings agree on MRV give the same result and final store, whatever the LCV and AC-3 switches say |
| SearchTheorems.UnconstrainedTakesFirstValues | map-coloring-main/Solver.py:32-42 | without constraints and with non-empty domains, the search succeeds and gives every pending variable the first value of its domain |
| OneSidedIndex.MrvChangesOneSidedOutcome | map-coloring-main/CSP.py:54-58 | with each constraint indexed under its first variable only, a chain with no colouring makes the plain search fail, while the search with MRV on returns a map that gives the two ends of a constraint the same colour |
| MapInstance.AddNeighbours | map-coloring-main/main.py:77-78 | adding one constraint per neighbour adds exactly the arcs from the country to its listed neighbours, and leaves domains, assignments and the unassigned list alone |
| MapInstance.Build | map-coloring-main/main.py:71-78 | the CSP built from a border map (`MapInstance.BuildFrom` runs main.py's loop over its items) is well formed with nothing assigned, registers exactly the countries of the map, each with the palette as its domain, and has an arc from `x` to `y` exactly when `y` is listed as a neighbour of `x` |
| MapInstance.SymmetricBordersGiveSymmetricIndex | map-coloring-main/main.py:75-78 | when every border is listed from both of its countries, every arc of the built index has its reverse |
| MapInstance.MapSearchDecides | map-coloring-main/main.py:71-85 | on the CSP built from a symmetric border map, with "not equal" predicates, the search succeeds exactly when the map can be coloured from the palette so that any two different neighbouring countries get different colours |

## Left out

- map-coloring-main/main.py: the command line, the continent maps, the
  map generator and the drawing are input and output and are left out.
  Only its loop that builds the CSP from a border map is modelled, in
  `MapInstance`, with the border map given as its items in iteration
  order. Whether the generated maps are symmetric is a property of the map
  generator, which is not part of this model, so it is a hypothesis.
- `apply_AC3` (map-coloring-main/Solver.py:94-100) has no body and is never called, and the `AC_3`
  switch is never read. Only the `arc_reduce` stub is modelled, as a function that returns
  `None` and changes nothing.
- `removed_color` in `backtrack_solver` is written and never read, so it is
  not kept.
- Predicates are Python callables that could have side effects. They are
  modelled as pure handles interpreted by a fixed `holds` function.
- Search.Backtrack: states only that the multiset of pending variables is
  restored after a failure, not the order of the unassigned list, which the
  re-append in `unassign` changes.
- Search.Backtrack: requires a well-formed store, the invariant that every
  store built by `add_variable` and `add_constraint` keeps. On an
  ill-formed store the Python can raise from `list.remove` or from a missing
  domain, which is not modelled.
- Search.TryValues: requires a well-formed store and a pending variable, as
  `backtrack_solver` guarantees when it enters the loop.
- Search.SelectUnassignedVariable: requires a non-empty unassigned list.
  Python would raise IndexError on an empty one, but the search calls it
  only on an incomplete store.
- Search.Mrv: requires a non-empty unassigned list, for the same reason.
- ConstraintStore.AddConstraint: a scope longer than two names is stored
  whole in the constraint list, but only its first two names reach the
  index, as in the code.
- The attempt counter (`assignments_number`) is unbounded, since Python
  integers do not wrap.
- Python's recursion limit is not modelled. `backtrack_solver` uses one stack
  frame per pending variable, so with the default limit of 1000 frames a map
  of about a thousand countries raises RecursionError, where the model
  recurses without bound.
- SearchTheorems.HeuristicsPreserveSolvability: holds only for a fresh store
  with "not equal" predicates in which every arc has its reverse, as main.py
  builds from a symmetric border map. With each constraint indexed under one
  end only, MRV can change the outcome (`OneSidedIndex.MrvChangesOneSidedOutcome`).
- SearchTheorems.SolutionIsProperColouring: has the same hypotheses. With a
  one-sided index the returned map can give both ends of a constraint the same
  colour (`OneSidedIndex.MrvChangesOneSidedOutcome`).
- SearchTheorems.SolutionIsProperColouring: a self-constraint, an arc from a
  variable to itself as main.py stores when a country lists itself among its
  neighbours, is never checked by `is_consistent`
  (map-coloring-main/CSP.py:115-120), because the variable is still pending
  while its own value is checked. The properness stated covers only
  constraints between two different variables.
- SearchTheorems.BacktrackDecides: for the same reason, "colourable" means
  that every constraint between two different variables is met; a
  self-constraint is ignored, as the search ignores it. The same holds for
  `SearchTheorems.CheckedIsSatisfying`, `SearchTheorems.BacktrackIsComplete`
  and `MapInstance.MapSearchDecides`.
