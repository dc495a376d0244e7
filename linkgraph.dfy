/**
 * The link relation of a whole grid, as a value: each cell position mapped to the
 * set of positions it is linked to. `MazeGrid` keeps this map in step with its cells.
 */
module LinkGraph {
  import opened Pos
  import opened Topology

  type Links = map<Position, set<Position>>

  /** The map `MazeGrid::link(a, b)` leaves behind: `b` added to `a`'s links and `a` to `b`'s. */
  function AddEdge(m: Links, a: Position, b: Position): (r: Links)
    requires a in m && b in m
    ensures r.Keys == m.Keys
    ensures r[a] == m[a] + {b} + (if a == b then {a} else {})
    ensures r[b] == m[b] + {a} + (if a == b then {b} else {})
    ensures forall p :: p in m && p != a && p != b ==> r[p] == m[p]
  {
    map p | p in m :: m[p] + (if p == a then {b} else {}) + (if p == b then {a} else {})
  }

  /** The map `MazeGrid::unlink(a, b)` leaves behind: `b` removed from `a`'s links and `a` from `b`'s. */
  function RemoveEdge(m: Links, a: Position, b: Position): (r: Links)
    requires a in m && b in m
    ensures r.Keys == m.Keys
    ensures r[a] == m[a] - {b} - (if a == b then {a} else {})
    ensures r[b] == m[b] - {a} - (if a == b then {b} else {})
    ensures forall p :: p in m && p != a && p != b ==> r[p] == m[p]
  {
    map p | p in m :: m[p] - (if p == a then {b} else {}) - (if p == b then {a} else {})
  }

  /** Every link is recorded at both of its ends, and both ends are cells. */
  predicate Symmetric(m: Links)
  {
    forall p, q :: p in m && q in m[p] ==> q in m && p in m[q]
  }

  /** Every link joins a cell to one of its neighbours. */
  predicate AllAdjacent(s: Shape, m: Links)
    requires WellFormed(s)
  {
    forall p, q :: p in m && q in m[p] ==> q in Neighbors(s, p)
  }

  /** `m2` holds every link of `m1`, and possibly more. */
  predicate Grows(m1: Links, m2: Links)
  {
    m1.Keys == m2.Keys && forall p :: p in m1 ==> m1[p] <= m2[p]
  }

  /** Every link of `m2` that `m1` lacks joins neighbouring cells. */
  predicate NewLinksAdjacent(s: Shape, m1: Links, m2: Links)
    requires WellFormed(s)
  {
    forall p, q :: p in m2 && q in m2[p] && (p !in m1 || q !in m1[p]) ==> q in Neighbors(s, p)
  }

  /** The cells without links. */
  function LinkFree(m: Links): set<Position>
  {
    set p | p in m && m[p] == {}
  }

  /** A link is undirected: `link(a, b)` and `link(b, a)` give the same map. */
  lemma AddEdgeSwap(m: Links, a: Position, b: Position)
    requires a in m && b in m
    ensures AddEdge(m, a, b) == AddEdge(m, b, a)
  {
  }

  lemma AddEdgeKeepsSymmetric(m: Links, a: Position, b: Position)
    requires a in m && b in m && Symmetric(m)
    ensures Symmetric(AddEdge(m, a, b))
  {
  }

  lemma RemoveEdgeKeepsSymmetric(m: Links, a: Position, b: Position)
    requires a in m && b in m && Symmetric(m)
    ensures Symmetric(RemoveEdge(m, a, b))
  {
    var r := RemoveEdge(m, a, b);
    forall p, q | p in r && q in r[p]
      ensures q in r && p in r[q]
    {
      assert q in m[p];
      assert p in m[q];
    }
  }

  /** Linking then unlinking a pair that was not linked restores the map exactly. */
  lemma {:induction false} LinkThenUnlink(m: Links, a: Position, b: Position)
    requires a in m && b in m && Symmetric(m) && b !in m[a]
    ensures RemoveEdge(AddEdge(m, a, b), a, b) == m
  {
    var r := RemoveEdge(AddEdge(m, a, b), a, b);
    assert a !in m[b];
    forall p | p in m
      ensures r[p] == m[p]
    {
    }
  }

  /** Linking neighbours keeps every link between neighbours. */
  lemma AddEdgeKeepsAdjacent(s: Shape, m: Links, a: Position, b: Position)
    requires WellFormed(s) && a in m && b in m && AllAdjacent(s, m) && b in Neighbors(s, a)
    ensures AllAdjacent(s, AddEdge(m, a, b))
  {
    NeighborsSymmetric(s, a, b);
  }

  lemma {:induction false} GrowsTransitive(m1: Links, m2: Links, m3: Links)
    requires Grows(m1, m2) && Grows(m2, m3)
    ensures Grows(m1, m3)
  {
    forall p | p in m1
      ensures m1[p] <= m3[p]
    {
      assert m1[p] <= m2[p];
    }
  }

  /** Adding a link between neighbours only adds to the map, and only a neighbouring pair. */
  lemma AddEdgeGrows(s: Shape, m0: Links, m: Links, a: Position, b: Position)
    requires WellFormed(s) && a in m && b in m && b in Neighbors(s, a)
    requires Grows(m0, m) && NewLinksAdjacent(s, m0, m)
    ensures Grows(m0, AddEdge(m, a, b)) && NewLinksAdjacent(s, m0, AddEdge(m, a, b))
  {
    NeighborsSymmetric(s, a, b);
  }

  /** Linking a link-free cell shrinks the set of link-free cells. */
  lemma {:induction false} AddEdgeShrinksLinkFree(m: Links, a: Position, b: Position)
    requires a in m && b in m
    ensures LinkFree(AddEdge(m, a, b)) <= LinkFree(m)
    ensures m[a] == {} ==> a !in LinkFree(AddEdge(m, a, b)) && a in LinkFree(m)
    ensures m[b] == {} ==> b !in LinkFree(AddEdge(m, a, b)) && b in LinkFree(m)
  {
  }
}
