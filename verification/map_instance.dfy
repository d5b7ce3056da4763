/** How map-coloring-main/main.py builds its CSP: every country of the border
    map is registered with the same palette, and one "not equal" constraint
    is added from the country towards each of its neighbours. When the
    border map is symmetric, so is the index this produces, and the search
    then decides exactly whether the map can be coloured. */
module MapInstance {
  import opened PyValues
  import opened ConstraintStore
  import opened Search
  import opened SearchTheorems

  /** The border map as its items in iteration order: `(country, neighbours)`. */
  type BorderMap<V> = seq<(V, seq<V>)>

  /** `y` is listed among the neighbours of `x`. */
  ghost predicate Adjacent<V>(borders: BorderMap<V>, x: V, y: V) {
    exists i | 0 <= i < |borders| :: borders[i].0 == x && y in borders[i].1
  }

  /** Every border is listed from both of its countries. */
  ghost predicate SymmetricBorderMap<V>(borders: BorderMap<V>) {
    forall i, y | 0 <= i < |borders| && y in borders[i].1 :: Adjacent(borders, y, borders[i].0)
  }

  /** The inner loop: `add_constraint(ne, [country, neighbor])` for each neighbour in order. */
  function AddNeighbours<V(==, !new), D(==), P(==)>(s: Store<V, D, P>, ne: P, country: V, neighbours: seq<V>): (r: Store<V, D, P>)
    ensures r.domains == s.domains && r.assignments == s.assignments && r.unassigned == s.unassigned
    ensures Wf(s) ==> Wf(r)
    ensures forall x, y :: HasArcTo(r.index, x, y) <==> HasArcTo(s.index, x, y) || (x == country && y in neighbours)
    decreases |neighbours|
  {
    if neighbours == [] then s
    else
      var last := neighbours[|neighbours| - 1];
      var s' := AddNeighbours(s, ne, country, neighbours[..|neighbours| - 1]);
      var r := AddConstraint(s', ne, [country, last]).state;
      AddedArc(s', ne, country, last);
      assert forall y :: y in neighbours <==> y in neighbours[..|neighbours| - 1] || y == last by {
        assert neighbours == neighbours[..|neighbours| - 1] + [last];
      }
      r
  }

  /** One `add_constraint(ne, [x, y])` adds exactly the arc `x -> y`. */
  lemma AddedArc<V, D, P>(s: Store<V, D, P>, ne: P, x: V, y: V)
    ensures var r := AddConstraint(s, ne, [x, y]).state;
      forall a, b :: HasArcTo(r.index, a, b) <==> HasArcTo(s.index, a, b) || (a == x && b == y)
  {
    var r := AddConstraint(s, ne, [x, y]).state;
    forall a, b ensures HasArcTo(r.index, a, b) <==> HasArcTo(s.index, a, b) || (a == x && b == y) {
      if a == x {
        var before := Partners(s.index, x);
        assert Partners(r.index, x) == before + [Arc(ne, y)];
        if HasArcTo(s.index, a, b) {
          var k :| 0 <= k < |before| && before[k].partner == b;
          assert Partners(r.index, x)[k].partner == b;
        }
        if b == y {
          assert Partners(r.index, x)[|before|].partner == b;
        }
      } else {
        assert Partners(r.index, a) == Partners(s.index, a);
      }
    }
  }

  /** The outer loop of main.py over the border map, from a given store. */
  function BuildFrom<V(==, !new), D(==), P(==)>(s: Store<V, D, P>, ne: P, palette: seq<D>, borders: BorderMap<V>): (r: Store<V, D, P>)
    ensures r.assignments == s.assignments
    ensures Wf(s) ==> Wf(r)
    ensures r.domains.Keys == s.domains.Keys + (set i | 0 <= i < |borders| :: borders[i].0)
    ensures forall x, y :: HasArcTo(r.index, x, y) <==> HasArcTo(s.index, x, y) || Adjacent(borders, x, y)
    ensures forall x | x in r.domains :: r.domains[x] == if x in s.domains then s.domains[x] else palette
    decreases |borders|
  {
    if borders == [] then s
    else
      var n := |borders| - 1;
      var s' := BuildFrom(s, ne, palette, borders[..n]);
      var (country, neighbours) := borders[n];
      var r := AddNeighbours(AddVariable(s', country, palette), ne, country, neighbours);
      AdjacentOfSnoc(borders);
      r
  }

  /** The borders of a list are those of its prefix and those of its last item. */
  lemma AdjacentOfSnoc<V>(borders: BorderMap<V>)
    requires |borders| > 0
    ensures var n := |borders| - 1;
      && (forall x, y :: Adjacent(borders, x, y) <==> Adjacent(borders[..n], x, y) || (x == borders[n].0 && y in borders[n].1))
      && (set i | 0 <= i < |borders| :: borders[i].0) == (set i | 0 <= i < n :: borders[..n][i].0) + {borders[n].0}
  {
    var n := |borders| - 1;
    forall x, y ensures Adjacent(borders, x, y) <==> Adjacent(borders[..n], x, y) || (x == borders[n].0 && y in borders[n].1) {
      if Adjacent(borders, x, y) {
        var i :| 0 <= i < |borders| && borders[i].0 == x && y in borders[i].1;
        if i < n {
          assert borders[..n][i] == borders[i];
        }
      }
      if Adjacent(borders[..n], x, y) {
        var i :| 0 <= i < n && borders[..n][i].0 == x && y in borders[..n][i].1;
        assert borders[i] == borders[..n][i];
      }
    }
  }

  /** The CSP main.py builds from a fresh one. */
  function Build<V(==, !new), D(==), P(==)>(ne: P, palette: seq<D>, borders: BorderMap<V>): (r: Store<V, D, P>)
    ensures Wf(r) && r.assignments == map[]
    ensures r.domains.Keys == set i | 0 <= i < |borders| :: borders[i].0
    ensures forall x, y :: HasArcTo(r.index, x, y) <==> Adjacent(borders, x, y)
    ensures forall x | x in r.domains :: r.domains[x] == palette
  {
    BuildFrom(Empty(), ne, palette, borders)
  }

  /** A symmetric border map gives an index in which every arc has its reverse. */
  lemma SymmetricBordersGiveSymmetricIndex<V(!new), D, P>(ne: P, palette: seq<D>, borders: BorderMap<V>)
    requires SymmetricBorderMap(borders)
    ensures SymmetricIndex(Build<V, D, P>(ne, palette, borders).index)
  {
    var index := Build<V, D, P>(ne, palette, borders).index;
    forall x, k | x in index && 0 <= k < |Partners(index, x)| ensures HasArcTo(index, Partners(index, x)[k].partner, x) {
      var y := Partners(index, x)[k].partner;
      assert HasArcTo(index, x, y);
      var i :| 0 <= i < |borders| && borders[i].0 == x && y in borders[i].1;
      assert Adjacent(borders, y, x);
    }
  }

  /** On the CSP main.py builds from a symmetric border map, with "not equal"
      predicates, the search succeeds exactly when the map can be coloured. */
  lemma MapSearchDecides<V(!new), D(!new), P(!new)>(ne: P, palette: seq<D>, borders: BorderMap<V>, h: Heuristics, holds: (P, D, D) -> bool)
    requires SymmetricBorderMap(borders) && Differs(holds)
    ensures var s := Build<V, D, P>(ne, palette, borders);
      Backtrack(s, h, holds).0.Some? <==> Solvable(s, holds)
  {
    SymmetricBordersGiveSymmetricIndex<V, D, P>(ne, palette, borders);
    BacktrackDecides(Build<V, D, P>(ne, palette, borders), h, holds);
  }
}
