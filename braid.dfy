/**
 * `deadends` and `braid` of `algorithms.rs`: the cells with fewer than two links, and a pass
 * over them that joins some of them to a neighbour they are not linked to yet.
 */
module Braid {
  import opened Pos
  import opened Opt
  import opened Topology
  import opened LinkGraph
  import opened Growth
  import opened Generators
  import opened Cells
  import opened Grids

  /** `c.links().len() < 2`: a cell with at most one link. */
  predicate DeadEnd(m: Links, p: Position)
  {
    p in m && |m[p]| < 2
  }

  /** The dead ends among the first `n` cells, in construction order. */
  function DeadEndsBelow(g: MazeGrid, n: nat): (r: seq<Position>)
    reads g, g.cells
    requires g.LinksMirrored() && n <= |g.cells|
    ensures forall i :: 0 <= i < n ==> (g.cells[i].pos in r <==> DeadEnd(g.links, g.cells[i].pos))
    ensures forall j :: 0 <= j < |r| ==> DeadEnd(g.links, r[j]) && Laid(g.shape, r[j]) && Index(g.shape, r[j]) < n
  {
    if n == 0 then []
    else
      var before := DeadEndsBelow(g, n - 1);
      var c := g.cells[n - 1];
      before + (if |c.links| < 2 then [c.pos] else [])
  }

  /** Laid-out positions listed in construction order. */
  predicate InOrder(s: Shape, r: seq<Position>)
    requires forall j :: 0 <= j < |r| ==> Laid(s, r[j])
  {
    forall j, k :: 0 <= j < k < |r| ==> Index(s, r[j]) < Index(s, r[k])
  }

  /** The dead ends come out in construction order. */
  lemma {:induction false} DeadEndsOrdered(g: MazeGrid, n: nat)
    requires g.LinksMirrored() && n <= |g.cells|
    ensures InOrder(g.shape, DeadEndsBelow(g, n))
  {
    if n > 0 {
      DeadEndsOrdered(g, n - 1);
      var before := DeadEndsBelow(g, n - 1);
      var c := g.cells[n - 1];
      var r := DeadEndsBelow(g, n);
      assert r == before + (if |c.links| < 2 then [c.pos] else []);
      forall j, k | 0 <= j < k < |r|
        ensures Index(g.shape, r[j]) < Index(g.shape, r[k])
      {
        if k == |before| {
          assert Index(g.shape, c.pos) == n - 1;
          assert r[k] == c.pos && r[j] == before[j];
        } else {
          assert r[k] == before[k] && r[j] == before[j];
        }
      }
    }
  }

  /**
   * `deadends`: the positions of the cells with fewer than two links, in construction order,
   * each once.
   */
  function DeadEnds(g: MazeGrid): (r: seq<Position>)
    reads g, g.cells
    requires g.LinksMirrored()
    ensures forall p :: p in r <==> p in LaidSet(g.shape) && |g.links[p]| < 2
    ensures forall j, k :: 0 <= j < k < |r| ==> Index(g.shape, r[j]) < Index(g.shape, r[k])
  {
    g.EveryLaidHasCell();
    DeadEndsOrdered(g, |g.cells|);
    var r := DeadEndsBelow(g, |g.cells|);
    r
  }

  /** `.filter(|p| grid.num_links(p) == 1)`: the entries of `ns` whose cells have exactly one link. */
  function SingleLinked(g: MazeGrid, ns: seq<Position>): (r: seq<Position>)
    reads g, g.cells
    requires g.LinksMirrored()
    ensures forall q :: q in r <==> q in ns && g.NumLinks(q) == 1
  {
    if ns == [] then []
    else (if g.NumLinks(ns[0]) == 1 then [ns[0]] else []) + SingleLinked(g, ns[1..])
  }

  /** `num_links` on a link map: the size of the cell's link set, 0 for a position without a cell. */
  function Degree(m: Links, p: Position): nat
  {
    if p in m then |m[p]| else 0
  }

  /** A neighbour of `p` that `p` is not linked to: a candidate for `braid`. */
  predicate Open(s: Shape, m: Links, p: Position, q: Position)
    requires WellFormed(s)
  {
    q in Neighbors(s, p) && p in m && q !in m[p]
  }

  /**
   * The choice `braid` makes for one dead end it decided to remove: a neighbour it is not
   * linked to, one with exactly one link whenever there is such a candidate, and `None` only
   * when there is no candidate at all (or `pos` has no cell).
   */
  method Choose(g: MazeGrid, pos: Position) returns (choice: Option<Position>)
    requires g.Valid()
    ensures choice.Some? ==> Topology.Contains(g.shape, pos) && Open(g.shape, g.links, pos, choice.value)
    ensures choice.None? && Topology.Contains(g.shape, pos) ==> forall q :: !Open(g.shape, g.links, pos, q)
    ensures choice.Some? && (exists q :: Open(g.shape, g.links, pos, q) && Degree(g.links, q) == 1) ==>
      Degree(g.links, choice.value) == 1
  {
    var found := g.Get(pos);
    if found.None? {
      return None;
    }
    var cell := found.value;
    ContainedIsLaid(g.shape, pos);
    assert cell.Neighbors() == Neighbors(g.shape, pos) && cell.links == g.links[pos];
    var neighbors := Outside(cell.Neighbors(), cell.links);
    var best := SingleLinked(g, neighbors);
    forall q | q in neighbors
      ensures Topology.Contains(g.shape, q) && (g.NumLinks(q) == 1 <==> Degree(g.links, q) == 1)
    {
      NeighborsContained(g.shape, pos, q);
      ContainedIsLaid(g.shape, q);
    }
    if best != [] {
      neighbors := best;
    }
    if |neighbors| == 0 {
      return None;
    }
    var k :| 0 <= k < |neighbors|;
    choice := Some(neighbors[k]);
  }

  /** Every link added so far runs from a listed dead end to a neighbour it was not linked to before braiding. */
  predicate Braided(s: Shape, m: Links, ends: seq<Position>, added: seq<Edge>)
    requires WellFormed(s)
  {
    forall k :: 0 <= k < |added| ==> added[k].from in ends && Open(s, m, added[k].from, added[k].to)
  }

  /** A candidate now was a candidate before braiding: links are only ever added. */
  lemma OpenBefore(s: Shape, m: Links, ends: seq<Position>, added: seq<Edge>, p: Position, q: Position)
    requires WellFormed(s) && Within(m, added) && Braided(s, m, ends, added)
    requires Open(s, AddAll(m, added), p, q)
    ensures Open(s, m, p, q)
  {
    assert NeighborEdges(s, added);
    AddAllExtends(s, m, added);
  }

  lemma BraidedSnoc(s: Shape, m: Links, ends: seq<Position>, added: seq<Edge>, e: Edge)
    requires WellFormed(s) && Braided(s, m, ends, added) && e.from in ends && Open(s, m, e.from, e.to)
    ensures Braided(s, m, ends, added + [e])
  {
  }

  /** One dead end of `braid`: unless the coin says to keep it, link it to the neighbour `Choose` picks. */
  method BraidAt(g: MazeGrid, ghost m: Links, ends: seq<Position>, i: nat, ghost added: seq<Edge>)
    returns (ghost added': seq<Edge>)
    requires g.Valid() && i < |ends| && m.Keys == LaidSet(g.shape)
    requires Within(m, added) && g.links == AddAll(m, added) && Braided(g.shape, m, ends, added)
    modifies g`links, g.cells`links
    ensures g.Valid() && Within(m, added') && g.links == AddAll(m, added') && Braided(g.shape, m, ends, added')
  {
    added' := added;
    var remove: bool :| true;
    if !remove {
      return;
    }
    var pos := ends[i];
    var choice := Choose(g, pos);
    if choice.Some? {
      var q := choice.value;
      NeighborsContained(g.shape, pos, q);
      OpenBefore(g.shape, m, ends, added, pos, q);
      BraidedSnoc(g.shape, m, ends, added, Edge(pos, q));
      LinkEdge(g, m, added, pos, q);
      added' := added + [Edge(pos, q)];
    }
  }

  /**
   * `braid`: for each dead end found before braiding, a coin decides whether to remove it,
   * and a removed dead end is linked to the neighbour `Choose` picks. Links are only added,
   * each from a listed dead end to a neighbour it was not linked to before.
   */
  method Braid(g: MazeGrid) returns (ghost ends: seq<Position>, ghost added: seq<Edge>)
    requires g.Valid()
    modifies g`links, g.cells`links
    ensures g.Valid()
    ensures ends == old(DeadEnds(g))
    ensures forall p :: p in ends <==> p in LaidSet(g.shape) && |old(g.links)[p]| < 2
    ensures Within(old(g.links), added) && g.links == AddAll(old(g.links), added)
    ensures Braided(g.shape, old(g.links), ends, added)
  {
    ghost var m := g.links;
    var list := DeadEnds(g);
    ends, added := list, [];
    for i := 0 to |list|
      invariant g.Valid() && Within(m, added) && g.links == AddAll(m, added) && Braided(g.shape, m, list, added)
    {
      added := BraidAt(g, m, list, i, added);
    }
  }
}
