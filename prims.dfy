/**
 * The frontier generators of `algorithms.rs`: `simplified_prims`, `true_prims`, and
 * `growing_tree` with its selection functions `random_selection`, `last_selection` and
 * `mixed_selection`. Each keeps a collection of active cells, links a chosen active cell to
 * a neighbour without links (which becomes active), and drops an active cell once no
 * neighbour of it is free.
 */
module Prims {
  import opened Pos
  import opened Opt
  import opened Topology
  import opened LinkGraph
  import opened Growth
  import opened Generators
  import opened Connectivity
  import opened Grids

  /** `.filter(|n| !grid.has_links(n))`: the entries of `ns` whose cells have no links, in order. */
  function Unlinked(g: MazeGrid, ns: seq<Position>): (r: seq<Position>)
    reads g, g.cells
    requires g.LinksMirrored()
    ensures forall q :: q in r <==> q in ns && !LinkedCell(g.shape, g.links, q)
  {
    if ns == [] then []
    else (if !g.HasLinks(ns[0]) then [ns[0]] else []) + Unlinked(g, ns[1..])
  }

  /** The cells `MazeGrid::contains` accepts: all of them but the centre of a polar grid of no rings. */
  function Interior(s: Shape): (r: set<Position>)
    requires WellFormed(s)
    ensures forall p :: p in r <==> Topology.Contains(s, p)
  {
    set p | p in LaidSet(s) && Topology.Contains(s, p)
  }

  /**
   * What a frontier generator keeps on a grid that started without links: the links form a
   * forest growing from `start` along neighbours; once anything is linked, the linked cells
   * are exactly the reached ones; the active cells are reached; and a reached cell that is
   * no longer active has no neighbour left without links.
   */
  ghost predicate Frontier(s: Shape, m: Links, start: Position, edges: seq<Edge>, active: set<Position>)
    requires WellFormed(s)
  {
    && Topology.Contains(s, start)
    && Grown(s, {start}, edges)
    && active <= Reached({start}, edges)
    && (forall p :: LinkedCell(s, m, p) <==> edges != [] && p in Reached({start}, edges))
    && (forall p, q :: p in Reached({start}, edges) && p !in active && q in Neighbors(s, p) ==> LinkedCell(s, m, q))
  }

  /**
   * The outcome on a grid that started without links: a spanning tree of the whole grid,
   * grown from `start` along neighbours, reaching every cell with one link fewer than cells.
   */
  ghost predicate SpanningFrom(s: Shape, start: Position, edges: seq<Edge>)
    requires WellFormed(s)
  {
    && Topology.Contains(s, start)
    && Grown(s, {start}, edges)
    && Reached({start}, edges) == LaidSet(s)
    && |edges| + 1 == |LaidSet(s)|
  }

  /** A blank grid with only the start active is a frontier. */
  lemma FrontierStart(s: Shape, m: Links, start: Position)
    requires WellFormed(s) && Blank(m) && Topology.Contains(s, start)
    ensures Frontier(s, m, start, [], {start})
  {
    assert Reached({start}, []) == {start};
  }

  /** Linking an active cell to a free neighbour brings that neighbour into the tree. */
  lemma FrontierLink(s: Shape, m: Links, start: Position, edges: seq<Edge>, active: set<Position>,
                     pos: Position, n: Position)
    requires WellFormed(s) && m.Keys == LaidSet(s) && Frontier(s, m, start, edges, active)
    requires pos in active && n in Neighbors(s, pos) && !LinkedCell(s, m, n) && pos in m && n in m
    ensures Frontier(s, AddEdge(m, pos, n), start, edges + [Edge(pos, n)], active + {n})
  {
    LinkableStep(s, pos, n);
    var r := Reached({start}, edges);
    if edges == [] {
      assert r == {start};
      NotOwnNeighbor(s, pos);
    }
    GrownSnoc(s, {start}, edges, Edge(pos, n));
    LinkedGrow(s, m, r, edges != [], pos, n);
    RetiredGrow(s, m, AddEdge(m, pos, n), r, active, n);
  }

  /** Cells that had no free neighbour still have none once more cells are linked. */
  lemma RetiredGrow(s: Shape, m: Links, m': Links, r: set<Position>, active: set<Position>, n: Position)
    requires WellFormed(s)
    requires forall p, q :: p in r && p !in active && q in Neighbors(s, p) ==> LinkedCell(s, m, q)
    requires forall q :: LinkedCell(s, m, q) ==> LinkedCell(s, m', q)
    ensures forall p, q :: p in r + {n} && p !in active + {n} && q in Neighbors(s, p) ==> LinkedCell(s, m', q)
  {
  }

  /** The linked cells after `link(pos, n)`: those linked before (the reached ones), `pos` and `n`. */
  lemma LinkedGrow(s: Shape, m: Links, r: set<Position>, any: bool, pos: Position, n: Position)
    requires WellFormed(s) && pos in m && n in m && Topology.Contains(s, pos) && Topology.Contains(s, n)
    requires forall p :: LinkedCell(s, m, p) <==> any && p in r
    requires pos in r && (!any ==> r == {pos})
    ensures forall p :: LinkedCell(s, AddEdge(m, pos, n), p) <==> p in r + {n}
  {
  }

  /** Dropping an active cell none of whose neighbours is free keeps the frontier. */
  lemma FrontierRetire(s: Shape, m: Links, start: Position, edges: seq<Edge>, active: set<Position>, pos: Position)
    requires WellFormed(s) && Frontier(s, m, start, edges, active) && pos in active
    requires forall q :: q in Neighbors(s, pos) ==> LinkedCell(s, m, q)
    ensures Frontier(s, m, start, edges, active - {pos})
  {
  }

  /** With nothing active, every neighbour of a reached cell is reached, so the tree spans the grid. */
  lemma FrontierDone(s: Shape, m: Links, start: Position, edges: seq<Edge>)
    requires WellFormed(s) && Frontier(s, m, start, edges, {})
    ensures SpanningFrom(s, start, edges)
  {
    forall p, q | p in Reached({start}, edges) && q in Neighbors(s, p)
      ensures q !in LaidSet(s) - Reached({start}, edges)
    {
      assert LinkedCell(s, m, q);
    }
    ContainedIsLaid(s, start);
    SpanningTree(s, start, edges);
  }

  /** Linking a cell without links to another cell leaves fewer cells without links. */
  lemma LinkShrinks(m: Links, a: Position, b: Position)
    requires a in m && b in m && m[b] == {}
    ensures |LinkFree(AddEdge(m, a, b))| < |LinkFree(m)|
  {
    AddEdgeShrinksLinkFree(m, a, b);
    SubsetCard(LinkFree(AddEdge(m, a, b)), LinkFree(m) - {b});
  }

  /**
   * The loop state of every frontier generator: the links are the ones at the start plus
   * `edges`, each between neighbours; the active cells are contained cells; and on a grid
   * that started without links the frontier holds.
   */
  ghost predicate Growing(s: Shape, links0: Links, m: Links, start: Position, edges: seq<Edge>, active: set<Position>)
    requires WellFormed(s)
  {
    && links0.Keys == LaidSet(s)
    && Within(links0, edges) && m == AddAll(links0, edges) && NeighborEdges(s, edges)
    && active <= Interior(s)
    && (Blank(links0) ==> Frontier(s, m, start, edges, active))
  }

  /** The state a loop starts from: only the start is active, nothing is linked yet. */
  lemma GrowingStart(s: Shape, links0: Links, start: Position)
    requires WellFormed(s) && links0.Keys == LaidSet(s) && Topology.Contains(s, start)
    ensures Growing(s, links0, links0, start, [], {start})
  {
    if Blank(links0) {
      FrontierStart(s, links0, start);
    }
  }

  /** Linking the active `pos` to its free neighbour `n` and activating `n` keeps the state and uses up a free cell. */
  lemma GrowingLink(s: Shape, links0: Links, m: Links, start: Position, edges: seq<Edge>, active: set<Position>,
                    pos: Position, n: Position)
    requires WellFormed(s) && Growing(s, links0, m, start, edges, active)
    requires pos in active && n in Neighbors(s, pos) && !LinkedCell(s, m, n) && pos in m && n in m
    ensures Growing(s, links0, AddEdge(m, pos, n), start, edges + [Edge(pos, n)], active + {n})
    ensures |LinkFree(AddEdge(m, pos, n))| < |LinkFree(m)|
  {
    LinkableStep(s, pos, n);
    if Blank(links0) {
      FrontierLink(s, m, start, edges, active, pos, n);
    }
    Advance(s, links0, m, edges, pos, n);
  }

  /** Dropping an active cell with no free neighbour keeps the state. */
  lemma GrowingRetire(s: Shape, links0: Links, m: Links, start: Position, edges: seq<Edge>, active: set<Position>,
                      pos: Position)
    requires WellFormed(s) && Growing(s, links0, m, start, edges, active) && pos in active
    requires forall q :: q in Neighbors(s, pos) ==> LinkedCell(s, m, q)
    ensures Growing(s, links0, m, start, edges, active - {pos})
  {
    if Blank(links0) {
      FrontierRetire(s, m, start, edges, active, pos);
    }
  }

  /** When nothing is left active on a grid that started blank, the links span the grid. */
  lemma GrowingDone(s: Shape, links0: Links, m: Links, start: Position, edges: seq<Edge>)
    requires WellFormed(s) && Growing(s, links0, m, start, edges, {}) && Blank(links0)
    ensures SpanningFrom(s, start, edges)
  {
    FrontierDone(s, m, start, edges);
  }

  /**
   * One turn of the loop once the active cell `pos` is chosen: link it to `neighbor`, which
   * becomes active, or, when no neighbour of `pos` is free, leave the links alone and drop
   * `pos`. Either a free cell is used up or the active set shrinks.
   */
  method Grow(g: MazeGrid, ghost links0: Links, ghost start: Position, ghost edges: seq<Edge>,
              ghost active: set<Position>, pos: Position, neighbor: Option<Position>)
    returns (ghost edges': seq<Edge>)
    requires g.Valid() && Growing(g.shape, links0, g.links, start, edges, active) && pos in active
    requires neighbor.Some? ==>
      neighbor.value in Neighbors(g.shape, pos) && !LinkedCell(g.shape, g.links, neighbor.value)
    requires neighbor.None? ==> forall q :: q in Neighbors(g.shape, pos) ==> LinkedCell(g.shape, g.links, q)
    modifies g`links, g.cells`links
    ensures g.Valid()
    ensures neighbor.Some? ==>
      && Growing(g.shape, links0, g.links, start, edges', active + {neighbor.value})
      && |LinkFree(g.links)| < |LinkFree(old(g.links))|
    ensures neighbor.None? ==> Growing(g.shape, links0, g.links, start, edges', active - {pos}) && g.links == old(g.links)
  {
    edges' := edges;
    if neighbor.None? {
      GrowingRetire(g.shape, links0, g.links, start, edges, active, pos);
      return;
    }
    var n := neighbor.value;
    LinkableStep(g.shape, pos, n);
    GrowingLink(g.shape, links0, g.links, start, edges, active, pos, n);
    LinkEdge(g, links0, edges, pos, n);
    edges' := edges + [Edge(pos, n)];
  }

  /** The link `Grow` adds, on link maps: one more edge, and the measure drops. */
  lemma Advance(s: Shape, links0: Links, m: Links, edges: seq<Edge>, pos: Position, n: Position)
    requires WellFormed(s) && links0.Keys == LaidSet(s)
    requires Within(links0, edges) && m == AddAll(links0, edges) && NeighborEdges(s, edges)
    requires n in Neighbors(s, pos) && !LinkedCell(s, m, n) && pos in links0 && n in links0
    ensures Within(links0, edges + [Edge(pos, n)]) && AddAll(links0, edges + [Edge(pos, n)]) == AddEdge(m, pos, n)
    ensures NeighborEdges(s, edges + [Edge(pos, n)])
    ensures |LinkFree(AddEdge(m, pos, n))| < |LinkFree(m)|
  {
    LinkableStep(s, pos, n);
    AddAllSnoc(links0, edges, Edge(pos, n));
    assert m[n] == {};
    LinkShrinks(m, pos, n);
    NeighborEdgesAppend(s, edges, [Edge(pos, n)]);
  }

  /**
   * `simplified_prims`: from a random start, repeatedly pick a random active cell and link it
   * to a random free neighbour, or drop it when it has none. Every link joins neighbours; on
   * a grid that started without links the result is a spanning tree of the whole grid, with one link fewer than cells.
   */
  method SimplifiedPrims(g: MazeGrid) returns (ghost start: Option<Position>, ghost edges: seq<Edge>)
    requires g.Valid()
    modifies g`links, g.cells`links
    ensures g.Valid()
    ensures Within(old(g.links), edges) && g.links == AddAll(old(g.links), edges)
    ensures NeighborEdges(g.shape, edges)
    ensures start.None? <==> forall p :: !Topology.Contains(g.shape, p)
    ensures start.None? ==> edges == []
    ensures start.Some? && Blank(old(g.links)) ==> SpanningFrom(g.shape, start.value, edges)
  {
    ghost var links0 := g.links;
    edges := [];
    var first := g.RandomPos();
    start := first;
    if first.None? {
      return;
    }
    var origin := first.value;
    var active := {origin};
    GrowingStart(g.shape, links0, origin);
    while active != {}
      invariant g.Valid() && Growing(g.shape, links0, g.links, origin, edges, active)
      decreases |LinkFree(g.links)|, |active|
    {
      edges, active := RandomTurn(g, links0, origin, edges, active);
    }
    if Blank(links0) {
      GrowingDone(g.shape, links0, g.links, origin, edges);
    }
  }

  /** The loops' measure drops: a cell without links got one, or the links stayed and fewer cells are active. */
  predicate Progress(m: Links, m': Links, n: nat, n': nat)
  {
    |LinkFree(m')| < |LinkFree(m)| || (m' == m && n' < n)
  }

  /** One turn of `simplified_prims`: a random active cell, and a random free neighbour of it. */
  method RandomTurn(g: MazeGrid, ghost links0: Links, ghost start: Position, ghost edges: seq<Edge>,
                    active: set<Position>)
    returns (ghost edges': seq<Edge>, active': set<Position>)
    requires g.Valid() && Growing(g.shape, links0, g.links, start, edges, active) && active != {}
    modifies g`links, g.cells`links
    ensures g.Valid() && Growing(g.shape, links0, g.links, start, edges', active')
    ensures Progress(old(g.links), g.links, |active|, |active'|)
  {
    var pos :| pos in active;
    var free := Unlinked(g, g.Neighbors(pos));
    var neighbor: Option<Position> := None;
    if free != [] {
      var k :| 0 <= k < |free|;
      neighbor := Some(free[k]);
    }
    edges', active' := GrowSet(g, links0, start, edges, active, pos, neighbor);
  }

  /** `Grow` on a hash set of active cells: `insert` the linked neighbour, or `remove` `pos`. */
  method GrowSet(g: MazeGrid, ghost links0: Links, ghost start: Position, ghost edges: seq<Edge>,
                 active: set<Position>, pos: Position, neighbor: Option<Position>)
    returns (ghost edges': seq<Edge>, active': set<Position>)
    requires g.Valid() && Growing(g.shape, links0, g.links, start, edges, active) && pos in active
    requires neighbor.Some? ==>
      neighbor.value in Neighbors(g.shape, pos) && !LinkedCell(g.shape, g.links, neighbor.value)
    requires neighbor.None? ==> forall q :: q in Neighbors(g.shape, pos) ==> LinkedCell(g.shape, g.links, q)
    modifies g`links, g.cells`links
    ensures g.Valid() && Growing(g.shape, links0, g.links, start, edges', active')
    ensures Progress(old(g.links), g.links, |active|, |active'|)
  {
    edges' := Grow(g, links0, start, edges, active, pos, neighbor);
    active' := if neighbor.Some? then active + {neighbor.value} else active - {pos};
  }

  // ---------------------------------------------------------------------------
  // true_prims

  /** `costs`: a random cost in `0..100` for every cell of the grid. */
  predicate CostTable(s: Shape, costs: map<Position, nat>)
  {
    costs.Keys == LaidSet(s) && forall p :: p in costs ==> costs[p] < 100
  }

  /** The cost map `true_prims` draws before it starts. */
  method DrawCosts(s: Shape) returns (costs: map<Position, nat>)
    ensures CostTable(s, costs)
  {
    ghost var zero := map p | p in LaidSet(s) :: 0;
    assert CostTable(s, zero);
    costs :| CostTable(s, costs);
  }

  /**
   * `active.iter().min_by(cost)` on a non-empty set: an element of least cost. Which of
   * several equally cheap cells the hash set yields first is not modelled.
   */
  ghost function Least(xs: set<Position>, costs: map<Position, nat>): (p: Position)
    requires xs != {} && xs <= costs.Keys
    ensures p in xs && forall q :: q in xs ==> costs[p] <= costs[q]
    decreases |xs|
  {
    var x :| x in xs;
    if xs == {x} then x
    else
      var y := Least(xs - {x}, costs);
      if costs[x] < costs[y] then x else y
  }

  /** `min_by(cost)` over a list: the index of its first entry of least cost. */
  function CheapestIndex(ns: seq<Position>, costs: map<Position, nat>): (i: nat)
    requires ns != [] && forall k :: 0 <= k < |ns| ==> ns[k] in costs
    ensures i < |ns|
    ensures forall k :: 0 <= k < |ns| ==> costs[ns[i]] <= costs[ns[k]]
    ensures forall k :: 0 <= k < i ==> costs[ns[k]] > costs[ns[i]]
  {
    if |ns| == 1 then 0
    else
      var i := CheapestIndex(ns[..|ns| - 1], costs);
      if costs[ns[|ns| - 1]] < costs[ns[i]] then |ns| - 1 else i
  }

  /** `min_by(cost)` over a list: its first entry of least cost, `None` for an empty list. */
  function FirstCheapest(ns: seq<Position>, costs: map<Position, nat>): (r: Option<Position>)
    requires forall k :: 0 <= k < |ns| ==> ns[k] in costs
    ensures r.None? <==> ns == []
    ensures r.Some? ==> r.value in ns && r.value in costs
    ensures r.Some? ==> forall q :: q in ns ==> costs[r.value] <= costs[q]
  {
    if ns == [] then None else Some(ns[CheapestIndex(ns, costs)])
  }

  /** Every cell next to a cell has a cost. */
  lemma NeighborsCosted(s: Shape, costs: map<Position, nat>, p: Position)
    requires WellFormed(s) && CostTable(s, costs)
    ensures forall q :: q in Neighbors(s, p) ==> q in costs
  {
    forall q | q in Neighbors(s, p)
      ensures q in costs
    {
      LinkableStep(s, p, q);
    }
  }

  /** Every contained cell has a cost. */
  lemma InteriorCosted(s: Shape, costs: map<Position, nat>)
    requires WellFormed(s) && CostTable(s, costs)
    ensures Interior(s) <= costs.Keys
  {
    forall p | p in Interior(s)
      ensures p in costs
    {
      ContainedIsLaid(s, p);
    }
  }

  /**
   * `true_prims`: every cell gets a random cost; from a random start, repeatedly take the
   * cheapest active cell and link it to its cheapest free neighbour, or drop it when it has
   * none. Every link joins neighbours; on a grid that started without links the result is a
   * spanning tree of the whole grid, with one link fewer than cells.
   */
  method TruePrims(g: MazeGrid) returns (ghost start: Option<Position>, ghost edges: seq<Edge>)
    requires g.Valid()
    modifies g`links, g.cells`links
    ensures g.Valid()
    ensures Within(old(g.links), edges) && g.links == AddAll(old(g.links), edges)
    ensures NeighborEdges(g.shape, edges)
    ensures start.None? <==> forall p :: !Topology.Contains(g.shape, p)
    ensures start.None? ==> edges == []
    ensures start.Some? && Blank(old(g.links)) ==> SpanningFrom(g.shape, start.value, edges)
  {
    ghost var links0 := g.links;
    edges := [];
    var first := g.RandomPos();
    start := first;
    if first.None? {
      return;
    }
    var origin := first.value;
    var costs := DrawCosts(g.shape);
    GrowingStart(g.shape, links0, origin);
    edges := Cheapest(g, costs, links0, origin);
    if Blank(links0) {
      GrowingDone(g.shape, links0, g.links, origin, edges);
    }
  }

  /** The loop of `true_prims`: the cheapest active cell's turn until nothing is active. */
  method Cheapest(g: MazeGrid, costs: map<Position, nat>, ghost links0: Links, origin: Position)
    returns (ghost edges: seq<Edge>)
    requires g.Valid() && Growing(g.shape, links0, g.links, origin, [], {origin}) && CostTable(g.shape, costs)
    modifies g`links, g.cells`links
    ensures g.Valid() && Growing(g.shape, links0, g.links, origin, edges, {})
  {
    edges := [];
    var active := {origin};
    while active != {}
      invariant g.Valid() && Growing(g.shape, links0, g.links, origin, edges, active)
      decreases |LinkFree(g.links)|, |active|
    {
      edges, active := CheapestTurn(g, costs, links0, origin, edges, active);
    }
  }

  /** One turn of `true_prims`: the cheapest active cell, and the cheapest free neighbour of it. */
  method CheapestTurn(g: MazeGrid, costs: map<Position, nat>, ghost links0: Links, ghost start: Position,
                      ghost edges: seq<Edge>, active: set<Position>)
    returns (ghost edges': seq<Edge>, active': set<Position>)
    requires g.Valid() && Growing(g.shape, links0, g.links, start, edges, active) && active != {}
    requires CostTable(g.shape, costs)
    modifies g`links, g.cells`links
    ensures g.Valid() && Growing(g.shape, links0, g.links, start, edges', active')
    ensures Progress(old(g.links), g.links, |active|, |active'|)
  {
    InteriorCosted(g.shape, costs);
    ghost var least := Least(active, costs);
    var pos :| pos in active && forall q :: q in active ==> costs[pos] <= costs[q];
    NeighborsCosted(g.shape, costs, pos);
    var neighbor := FirstCheapest(Unlinked(g, g.Neighbors(pos)), costs);
    edges', active' := GrowSet(g, links0, start, edges, active, pos, neighbor);
  }

  // ---------------------------------------------------------------------------
  // growing_tree and its selection functions

  /** Removing a cell keeps the other entries distinct. */
  lemma {:induction false} WithoutDistinct(xs: seq<Position>, x: Position)
    requires Distinct(xs)
    ensures Distinct(Without(xs, x))
  {
    if xs != [] {
      var tail := xs[1..];
      assert Distinct(tail) by {
        forall i, j | 0 <= i < j < |tail|
          ensures tail[i] != tail[j]
        {
          assert tail[i] == xs[i + 1] && tail[j] == xs[j + 1];
        }
      }
      WithoutDistinct(tail, x);
      var rest := Without(tail, x);
      assert xs[0] !in rest;
      var r := Without(xs, x);
      if xs[0] != x {
        assert r == [xs[0]] + rest;
        forall i, j | 0 <= i < j < |r|
          ensures r[i] != r[j]
        {
          assert r[j] == rest[j - 1];
          if i > 0 {
            assert r[i] == rest[i - 1];
          }
        }
      } else {
        assert r == rest;
      }
    }
  }

  /**
   * `LinkedHashSet::insert`: `x` joins the entries, or moves, at the back; the other entries
   * keep their order, and no entry is repeated.
   */
  function Insert(active: seq<Position>, x: Position): (r: seq<Position>)
    ensures forall q :: q in r <==> q in active || q == x
    ensures Distinct(active) ==> Distinct(r)
  {
    var rest := Without(active, x);
    if Distinct(active) then
      WithoutDistinct(active, x);
      assert x !in rest;
      rest + [x]
    else
      rest + [x]
  }

  /** `last_selection`: the back of the active list, `None` when it is empty. */
  function Back(active: seq<Position>): (r: Option<Position>)
    ensures r.None? <==> active == []
    ensures r.Some? ==> r.value in active
  {
    if active == [] then None else Some(active[|active| - 1])
  }

  /**
   * The cell inserted last is the one `last_selection` returns: with it the growing tree
   * always extends from the newest cell, as the recursive backtracker does.
   */
  lemma BackInsert(active: seq<Position>, x: Position)
    ensures Back(Insert(active, x)) == Some(x)
  {
  }

  /** `random_selection` (`rng.choose` over the list): any entry, `None` only when the list is empty. */
  method RandomChoice(xs: seq<Position>) returns (r: Option<Position>)
    ensures r.None? <==> xs == []
    ensures r.Some? ==> r.value in xs
  {
    if xs == [] {
      return None;
    }
    var k :| 0 <= k < |xs|;
    return Some(xs[k]);
  }

  /** The selection functions that `growing_tree` is given. */
  datatype Selection = RandomSelection | LastSelection | MixedSelection

  /**
   * `random_selection`, `last_selection` and `mixed_selection` (a coin between the other two):
   * an active cell, `None` only when none is active.
   */
  method Select(selection: Selection, active: seq<Position>) returns (r: Option<Position>)
    ensures r.None? <==> active == []
    ensures r.Some? ==> r.value in active
    ensures selection == LastSelection ==> r == Back(active)
  {
    match selection
    case RandomSelection =>
      r := RandomChoice(active);
    case LastSelection =>
      r := Back(active);
    case MixedSelection =>
      var coin: nat :| coin < 2;
      if coin == 0 {
        r := Back(active);
      } else {
        r := RandomChoice(active);
      }
  }

  /**
   * `growing_tree`: from a random start, repeatedly let `selection` pick an active cell (the
   * `unwrap` never fails: the list is not empty) and link it to a random free neighbour, or
   * remove it when it has none. Every link joins neighbours; on a grid that started without
   * links the result is a spanning tree of the whole grid, with one link fewer than cells.
   */
  method GrowingTree(g: MazeGrid, selection: Selection) returns (ghost start: Option<Position>, ghost edges: seq<Edge>)
    requires g.Valid()
    modifies g`links, g.cells`links
    ensures g.Valid()
    ensures Within(old(g.links), edges) && g.links == AddAll(old(g.links), edges)
    ensures NeighborEdges(g.shape, edges)
    ensures start.None? <==> forall p :: !Topology.Contains(g.shape, p)
    ensures start.None? ==> edges == []
    ensures start.Some? && Blank(old(g.links)) ==> SpanningFrom(g.shape, start.value, edges)
  {
    ghost var links0 := g.links;
    edges := [];
    var first := g.RandomPos();
    start := first;
    if first.None? {
      return;
    }
    var origin := first.value;
    var active := [origin];
    ghost var members := {origin};
    GrowingStart(g.shape, links0, origin);
    while active != []
      invariant g.Valid() && Growing(g.shape, links0, g.links, origin, edges, members)
      invariant Distinct(active) && forall p :: p in active <==> p in members
      decreases |LinkFree(g.links)|, |active|
    {
      edges, active, members := TreeTurn(g, selection, links0, origin, edges, active, members);
    }
    if Blank(links0) {
      assert members == {};
      GrowingDone(g.shape, links0, g.links, origin, edges);
    }
  }

  /** One turn of `growing_tree`: the selected cell, and a random free neighbour of it. */
  method TreeTurn(g: MazeGrid, selection: Selection, ghost links0: Links, ghost start: Position,
                  ghost edges: seq<Edge>, active: seq<Position>, ghost members: set<Position>)
    returns (ghost edges': seq<Edge>, active': seq<Position>, ghost members': set<Position>)
    requires g.Valid() && Growing(g.shape, links0, g.links, start, edges, members) && active != []
    requires Distinct(active) && forall p :: p in active <==> p in members
    modifies g`links, g.cells`links
    ensures g.Valid() && Growing(g.shape, links0, g.links, start, edges', members')
    ensures Distinct(active') && forall p :: p in active' <==> p in members'
    ensures Progress(old(g.links), g.links, |active|, |active'|)
  {
    var choice := Select(selection, active);
    edges', active', members' := GrowList(g, links0, start, edges, active, members, choice.value);
  }

  /**
   * The rest of a `growing_tree` turn once `pos` is selected: a random free neighbour is linked
   * and `insert`ed into the linked hash set, or, when none is free, `pos` is `remove`d.
   */
  method GrowList(g: MazeGrid, ghost links0: Links, ghost start: Position, ghost edges: seq<Edge>,
                  active: seq<Position>, ghost members: set<Position>, pos: Position)
    returns (ghost edges': seq<Edge>, active': seq<Position>, ghost members': set<Position>)
    requires g.Valid() && Growing(g.shape, links0, g.links, start, edges, members) && pos in active
    requires Distinct(active) && forall p :: p in active <==> p in members
    modifies g`links, g.cells`links
    ensures g.Valid() && Growing(g.shape, links0, g.links, start, edges', members')
    ensures Distinct(active') && forall p :: p in active' <==> p in members'
    ensures Progress(old(g.links), g.links, |active|, |active'|)
  {
    var free := Unlinked(g, g.Neighbors(pos));
    var neighbor: Option<Position> := None;
    if free != [] {
      var k :| 0 <= k < |free|;
      neighbor := Some(free[k]);
    }
    edges' := Grow(g, links0, start, edges, members, pos, neighbor);
    if neighbor.Some? {
      active' := Insert(active, neighbor.value);
      members' := members + {neighbor.value};
    } else {
      WithoutDistinct(active, pos);
      active' := Without(active, pos);
      members' := members - {pos};
    }
  }
}
