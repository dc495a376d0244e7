/**
 * `hunt_and_kill` / `_hunt_and_kill` of `algorithms.rs`: a walk that links the current cell
 * to an unvisited neighbour, and, when stuck, a hunt through the cells in construction order
 * for the first cell without links that borders a linked cell.
 */
module HuntAndKill {
  import opened Pos
  import opened Opt
  import opened Topology
  import opened LinkGraph
  import opened Growth
  import opened Generators
  import opened Connectivity
  import opened Grids

  /** A cell the hunt accepts: it has no links and some neighbour has. */
  predicate Huntable(s: Shape, m: Links, p: Position)
    requires WellFormed(s)
  {
    !LinkedCell(s, m, p) && exists q :: q in Neighbors(s, p) && LinkedCell(s, m, q)
  }

  /** `.filter(|pos| grid.has_links(pos))`: the entries of `ns` whose cells have links, in order. */
  function KeepLinked(g: MazeGrid, ns: seq<Position>): (r: seq<Position>)
    reads g, g.cells
    requires g.LinksMirrored()
    ensures forall q :: q in r <==> q in ns && LinkedCell(g.shape, g.links, q)
    ensures |r| <= |ns|
  {
    if ns == [] then []
    else (if g.HasLinks(ns[0]) then [ns[0]] else []) + KeepLinked(g, ns[1..])
  }

  /**
   * The hunt of `_hunt_and_kill`: the first cell in construction order (at `index`) that has
   * no links and a linked neighbour, with one such neighbour (as `Edge(neighbour, cell)`), or
   * `None` when no cell qualifies.
   */
  method Hunt(g: MazeGrid) returns (r: Option<Edge>, index: nat)
    requires g.Wired() && g.LinksMirrored()
    ensures r.Some? ==>
      && r.value.from in Neighbors(g.shape, r.value.to)
      && LinkedCell(g.shape, g.links, r.value.from)
      && Huntable(g.shape, g.links, r.value.to)
    ensures r.Some? ==> index < |g.cells| && g.cells[index].pos == r.value.to
    ensures forall j :: 0 <= j < index && j < |g.cells| ==> !Huntable(g.shape, g.links, g.cells[j].pos)
    ensures r.None? ==> forall p :: p in LaidSet(g.shape) ==> !Huntable(g.shape, g.links, p)
  {
    index := 0;
    while index < |g.cells|
      invariant index <= |g.cells|
      invariant forall j :: 0 <= j < index ==> !Huntable(g.shape, g.links, g.cells[j].pos)
    {
      var cur := g.cells[index].pos;
      var linked := Probe(g, cur);
      if linked.Some? {
        return Some(Edge(linked.value, cur)), index;
      }
      index := index + 1;
    }
    ScanComplete(g);
    return None, index;
  }

  /** A hunt that passed every cell without a find leaves no laid-out cell huntable. */
  lemma ScanComplete(g: MazeGrid)
    requires g.Layout()
    requires forall j :: 0 <= j < |g.cells| ==> !Huntable(g.shape, g.links, g.cells[j].pos)
    ensures forall p :: p in LaidSet(g.shape) ==> !Huntable(g.shape, g.links, p)
  {
    g.EveryLaidHasCell();
  }

  /** The test the hunt makes of one cell: a linked neighbour of `p` if `p` has no links, else `None`. */
  method Probe(g: MazeGrid, p: Position) returns (r: Option<Position>)
    requires g.Wired() && g.LinksMirrored()
    ensures r.Some? ==>
      && r.value in Neighbors(g.shape, p)
      && LinkedCell(g.shape, g.links, r.value)
      && Huntable(g.shape, g.links, p)
    ensures r.None? ==> !Huntable(g.shape, g.links, p)
  {
    if g.HasLinks(p) {
      LinkedNotHuntable(g.shape, g.links, p);
      return None;
    }
    var linked := KeepLinked(g, g.Neighbors(p));
    if linked == [] {
      LonelyNotHuntable(g.shape, g.links, p);
      return None;
    }
    var k :| 0 <= k < |linked|;
    return Some(linked[k]);
  }

  /**
   * `_hunt_and_kill`: one step from `current`. With an unvisited neighbour, link to one and
   * go there; otherwise, while cells are unvisited, hunt and link the cell found to its
   * linked neighbour. The cell moved to leaves `unvisited`. `e` is the link made, as an
   * edge from the cell already in the maze.
   */
  method Step(g: MazeGrid, unvisited: set<Position>, current: Position)
    returns (next: Option<Position>, unvisited': set<Position>, ghost e: Edge)
    requires g.Valid()
    modifies g`links, g.cells`links
    ensures g.Valid()
    ensures next.None? ==> g.links == old(g.links) && unvisited' == unvisited
    ensures next.None? ==> Exhausted(g.shape, current, unvisited)
    ensures next.None? ==> unvisited == {} || forall p :: p in LaidSet(g.shape) ==> !Huntable(g.shape, g.links, p)
    ensures next.Some? ==>
      && e.to == next.value && e.from in old(g.links) && e.to in old(g.links)
      && e.to in Neighbors(g.shape, e.from)
      && g.links == AddEdge(old(g.links), e.from, e.to)
      && unvisited' == unvisited - {e.to}
    ensures next.Some? ==>
      || (e.from == current && e.to in unvisited)
      || (LinkedCell(g.shape, old(g.links), e.from) && Huntable(g.shape, old(g.links), e.to))
  {
    var unvisitedNeighbors := Keep(g.Neighbors(current), unvisited);
    next, unvisited', e := None, unvisited, Edge(current, current);
    if unvisitedNeighbors != [] {
      var k :| 0 <= k < |unvisitedNeighbors|;
      var neighbor := unvisitedNeighbors[k];
      LinkableStep(g.shape, current, neighbor);
      assert current in g.links && neighbor in g.links;
      g.Link(current, neighbor);
      next, e := Some(neighbor), Edge(current, neighbor);
    } else if unvisited != {} {
      next, e := Kill(g);
    }
    if next.Some? {
      unvisited' := unvisited - {next.value};
    }
  }

  /**
   * The hunt branch of `_hunt_and_kill`: the cell the hunt finds is linked to its linked
   * neighbour and becomes the next cell; with no cell found, nothing changes.
   */
  method Kill(g: MazeGrid) returns (next: Option<Position>, ghost e: Edge)
    requires g.Valid()
    modifies g`links, g.cells`links
    ensures g.Valid()
    ensures next.None? ==> g.links == old(g.links)
    ensures next.None? ==> forall p :: p in LaidSet(g.shape) ==> !Huntable(g.shape, g.links, p)
    ensures next.Some? ==>
      && e.to == next.value && e.from in old(g.links) && e.to in old(g.links)
      && e.to in Neighbors(g.shape, e.from)
      && g.links == AddEdge(old(g.links), e.from, e.to)
      && LinkedCell(g.shape, old(g.links), e.from) && Huntable(g.shape, old(g.links), e.to)
  {
    var found, _ := Hunt(g);
    next, e := None, Edge(Position(0, 0), Position(0, 0));
    if found.Some? {
      var cell, linkedNeighbor := found.value.to, found.value.from;
      LinkableStep(g.shape, cell, linkedNeighbor);
      NeighborsSymmetric(g.shape, cell, linkedNeighbor);
      ghost var m := g.links;
      assert cell in m && linkedNeighbor in m;
      g.Link(cell, linkedNeighbor);
      AddEdgeSwap(m, cell, linkedNeighbor);
      next, e := Some(cell), found.value;
    }
  }

  /**
   * The bookkeeping of `hunt_and_kill` on a grid that started without links, with `reached`
   * the cells in the maze: they are exactly the visited cells, the walk stands on one of
   * them, and once anything is linked a cell has links exactly when it is reached.
   */
  ghost predicate Tracked(s: Shape, m: Links, reached: set<Position>, linkedAny: bool,
                          unvisited: set<Position>, start: Position, current: Position)
  {
    && unvisited <= LaidSet(s)
    && reached == LaidSet(s) - unvisited
    && current in reached
    && (!linkedAny ==> current == start && reached == {start})
    && m.Keys == LaidSet(s)
    && (forall p :: p in m ==> (m[p] != {} <==> linkedAny && p in reached))
  }

  /** What `hunt_and_kill` keeps on a grid that started without links: a forest from the start, tracked as above. */
  ghost predicate HuntState(s: Shape, m: Links, start: Position, edges: seq<Edge>, unvisited: set<Position>, current: Position)
    requires WellFormed(s)
  {
    Grown(s, {start}, edges) && Tracked(s, m, Reached({start}, edges), edges != [], unvisited, start, current)
  }

  /** Set algebra: moving `c` from the unvisited cells to the reached ones. */
  lemma Bring(laid: set<Position>, u: set<Position>, reached: set<Position>, c: Position)
    requires reached == laid - u && c in u && u <= laid
    ensures reached + {c} == laid - (u - {c}) && u - {c} <= laid
  {
  }

  /** The start alone, before any link. */
  lemma HuntStart(s: Shape, m: Links, start: Position, unvisited: set<Position>)
    requires WellFormed(s) && Blank(m) && m.Keys == LaidSet(s)
    requires start in LaidSet(s) && unvisited == LaidSet(s) - {start}
    ensures HuntState(s, m, start, [], unvisited, start)
  {
    assert LaidSet(s) - unvisited == {start};
  }

  /** Linking a reached cell to an unvisited one brings that cell in and gives both links. */
  lemma TrackedGrows(s: Shape, m: Links, reached: set<Position>, linkedAny: bool, unvisited: set<Position>,
                     start: Position, current: Position, e: Edge)
    requires Tracked(s, m, reached, linkedAny, unvisited, start, current)
    requires e.from in reached && e.to in unvisited
    ensures Tracked(s, AddEdge(m, e.from, e.to), reached + {e.to}, true, unvisited - {e.to}, start, e.to)
  {
    Bring(LaidSet(s), unvisited, reached, e.to);
  }

  /** A link from a reached cell to an unvisited neighbour brings that neighbour in. */
  lemma HuntGrows(s: Shape, m: Links, start: Position, edges: seq<Edge>, unvisited: set<Position>, current: Position, e: Edge)
    requires WellFormed(s) && HuntState(s, m, start, edges, unvisited, current)
    requires e.to in Neighbors(s, e.from) && e.from in Reached({start}, edges) && e.to in unvisited
    ensures HuntState(s, AddEdge(m, e.from, e.to), start, edges + [e], unvisited - {e.to}, e.to)
  {
    LinkableStep(s, e.from, e.to);
    GrownSnoc(s, {start}, edges, e);
    TrackedGrows(s, m, Reached({start}, edges), edges != [], unvisited, start, current, e);
  }

  /** On a grid that started blank, a hunted cell is unvisited and its linked neighbour reached. */
  lemma HuntedFresh(s: Shape, m: Links, reached: set<Position>, linkedAny: bool, unvisited: set<Position>,
                    start: Position, current: Position, e: Edge)
    requires WellFormed(s) && Tracked(s, m, reached, linkedAny, unvisited, start, current)
    requires e.from in Neighbors(s, e.to) && LinkedCell(s, m, e.from) && !LinkedCell(s, m, e.to)
    ensures e.to in Neighbors(s, e.from) && e.from in reached && e.to in unvisited
  {
    LinkableStep(s, e.to, e.from);
    NeighborsSymmetric(s, e.to, e.from);
    assert m[e.from] != {} && m[e.to] == {};
  }

  /** A linked cell is not hunted. */
  lemma LinkedNotHuntable(s: Shape, m: Links, p: Position)
    requires WellFormed(s) && LinkedCell(s, m, p)
    ensures !Huntable(s, m, p)
  {
  }

  /** A cell without linked neighbours is not hunted. */
  lemma LonelyNotHuntable(s: Shape, m: Links, p: Position)
    requires WellFormed(s) && forall q :: q in Neighbors(s, p) ==> !LinkedCell(s, m, q)
    ensures !Huntable(s, m, p)
  {
  }

  /**
   * When `_hunt_and_kill` returns `None` on a grid that started blank, every reached cell has
   * all its neighbours reached.
   */
  lemma HuntDone(s: Shape, m: Links, reached: set<Position>, linkedAny: bool, unvisited: set<Position>,
                 start: Position, current: Position)
    requires WellFormed(s) && Tracked(s, m, reached, linkedAny, unvisited, start, current)
    requires Exhausted(s, current, unvisited)
    requires unvisited == {} || forall p :: p in LaidSet(s) ==> !Huntable(s, m, p)
    ensures Closed(s, reached, LaidSet(s) - reached)
  {
    assert LaidSet(s) - reached == unvisited;
    forall p, q | p in reached && q in Neighbors(s, p)
      ensures q !in unvisited
    {
      LinkableStep(s, p, q);
      NeighborsSymmetric(s, p, q);
      if !linkedAny {
        assert p == current;
      } else if !LinkedCell(s, m, q) {
        assert LinkedCell(s, m, p);
        assert Huntable(s, m, q);
      }
    }
  }

  /**
   * `hunt_and_kill`: from a start taken out of the unvisited cells, step until
   * `_hunt_and_kill` returns `None`. Every link joins neighbours; on a grid that starts
   * without links, the links form a forest from the start and every reached cell has all
   * its neighbours reached: a spanning tree of the whole grid, with one link fewer than cells.
   */
  method Run(g: MazeGrid) returns (ghost start: Position, ghost edges: seq<Edge>)
    requires g.Valid()
    modifies g`links, g.cells`links
    ensures g.Valid()
    ensures Within(old(g.links), edges) && g.links == AddAll(old(g.links), edges)
    ensures NeighborEdges(g.shape, edges)
    ensures |g.cells| == 0 ==> edges == []
    ensures Blank(old(g.links)) && |g.cells| > 0 ==>
      && start in LaidSet(g.shape)
      && Forest({start}, edges)
      && Closed(g.shape, Reached({start}, edges), LaidSet(g.shape) - Reached({start}, edges))
      && Reached({start}, edges) == LaidSet(g.shape)
      && |edges| == |g.cells| - 1
  {
    ghost var links0 := g.links;
    g.LaidCount();
    var unvisited := g.PositionSet();
    var initial;
    initial, unvisited := MakeInitial(unvisited);
    edges := [];
    start := Position(0, 0);
    if initial.Some? {
      start := initial.value;
      if Blank(links0) {
        HuntStart(g.shape, links0, start, unvisited);
      }
      edges := Walk(g, links0, start, unvisited, initial.value);
      if Blank(links0) {
        SpanningTree(g.shape, start, edges);
      }
    }
  }

  /** The loop of `hunt_and_kill`: `_hunt_and_kill` until it returns `None`. */
  method Walk(g: MazeGrid, ghost links0: Links, ghost start: Position, unvisited: set<Position>, current: Position)
    returns (ghost edges: seq<Edge>)
    requires g.Valid() && links0 == g.links
    requires Blank(links0) ==> HuntState(g.shape, links0, start, [], unvisited, current)
    modifies g`links, g.cells`links
    ensures g.Valid()
    ensures Within(links0, edges) && g.links == AddAll(links0, edges)
    ensures NeighborEdges(g.shape, edges)
    ensures Blank(links0) ==>
      Grown(g.shape, {start}, edges) &&
      Closed(g.shape, Reached({start}, edges), LaidSet(g.shape) - Reached({start}, edges))
  {
    edges := [];
    var u, cur := unvisited, current;
    var done := false;
    while !done
      invariant g.Valid() && links0.Keys == LaidSet(g.shape)
      invariant Within(links0, edges) && g.links == AddAll(links0, edges)
      invariant NeighborEdges(g.shape, edges)
      invariant Blank(links0) ==> HuntState(g.shape, g.links, start, edges, u, cur)
      invariant done && Blank(links0) ==>
        Closed(g.shape, Reached({start}, edges), LaidSet(g.shape) - Reached({start}, edges))
      decreases !done, |u| + |LinkFree(g.links)|
    {
      done, edges, u, cur := Turn(g, links0, start, edges, u, cur);
    }
  }

  /** One turn of `hunt_and_kill`'s loop: a call of `_hunt_and_kill`, and the walk moves on unless it returned `None`. */
  method Turn(g: MazeGrid, ghost links0: Links, ghost start: Position, ghost edges: seq<Edge>,
              unvisited: set<Position>, current: Position)
    returns (done: bool, ghost edges': seq<Edge>, unvisited': set<Position>, current': Position)
    requires g.Valid() && links0.Keys == LaidSet(g.shape)
    requires Within(links0, edges) && g.links == AddAll(links0, edges)
    requires NeighborEdges(g.shape, edges)
    requires Blank(links0) ==> HuntState(g.shape, g.links, start, edges, unvisited, current)
    modifies g`links, g.cells`links
    ensures g.Valid()
    ensures Within(links0, edges') && g.links == AddAll(links0, edges')
    ensures NeighborEdges(g.shape, edges')
    ensures Blank(links0) ==> HuntState(g.shape, g.links, start, edges', unvisited', current')
    ensures done && Blank(links0) ==>
      Closed(g.shape, Reached({start}, edges'), LaidSet(g.shape) - Reached({start}, edges'))
    ensures !done ==> |unvisited'| + |LinkFree(g.links)| < |unvisited| + |LinkFree(old(g.links))|
  {
    ghost var m := g.links;
    var next;
    ghost var e;
    next, unvisited', e := Step(g, unvisited, current);
    edges', current' := edges, current;
    done := next.None?;
    if done {
      if Blank(links0) {
        HuntDone(g.shape, m, Reached({start}, edges), edges != [], unvisited, start, current);
      }
      return;
    }
    Advance(g.shape, links0, m, edges, e);
    AdvanceShrinks(g.shape, m, unvisited, current, e);
    if Blank(links0) {
      AdvanceState(g.shape, m, start, edges, unvisited, current, e);
    }
    edges' := edges + [e];
    current' := next.value;
  }

  /** One step that links: the edge list grows by the link made. */
  lemma Advance(s: Shape, links0: Links, m: Links, edges: seq<Edge>, e: Edge)
    requires WellFormed(s) && e.from in m && e.to in m
    requires e.to in Neighbors(s, e.from)
    requires Within(links0, edges) && m == AddAll(links0, edges) && NeighborEdges(s, edges)
    ensures Within(links0, edges + [e]) && AddAll(links0, edges + [e]) == AddEdge(m, e.from, e.to)
    ensures NeighborEdges(s, edges + [e])
  {
    AddAllSnoc(links0, edges, e);
    NeighborEdgesAppend(s, edges, [e]);
  }

  /** One step that links: either an unvisited cell is visited, or a hunted cell gets its first link. */
  lemma AdvanceShrinks(s: Shape, m: Links, u: set<Position>, current: Position, e: Edge)
    requires WellFormed(s) && e.from in m && e.to in m
    requires e.to in Neighbors(s, e.from)
    requires (e.from == current && e.to in u) || (LinkedCell(s, m, e.from) && Huntable(s, m, e.to))
    ensures |u - {e.to}| + |LinkFree(AddEdge(m, e.from, e.to))| < |u| + |LinkFree(m)|
  {
    AddEdgeShrinksLinkFree(m, e.from, e.to);
    SubsetCard(LinkFree(AddEdge(m, e.from, e.to)), LinkFree(m));
    if !(e.from == current && e.to in u) {
      assert m[e.to] == {} by {
        LinkableStep(s, e.from, e.to);
      }
      assert |LinkFree(AddEdge(m, e.from, e.to))| < |LinkFree(m)| by {
        SubsetCard(LinkFree(AddEdge(m, e.from, e.to)), LinkFree(m) - {e.to});
      }
      SubsetCard(u - {e.to}, u);
    }
  }

  /** One step that links, on a grid that started blank: the hunt-and-kill state is kept. */
  lemma AdvanceState(s: Shape, m: Links, start: Position, edges: seq<Edge>, u: set<Position>, current: Position, e: Edge)
    requires WellFormed(s) && e.from in m && e.to in m
    requires e.to in Neighbors(s, e.from)
    requires HuntState(s, m, start, edges, u, current)
    requires (e.from == current && e.to in u) || (LinkedCell(s, m, e.from) && Huntable(s, m, e.to))
    ensures HuntState(s, AddEdge(m, e.from, e.to), start, edges + [e], u - {e.to}, e.to)
  {
    if !(e.from == current && e.to in u) {
      NeighborsSymmetric(s, e.from, e.to);
      HuntedFresh(s, m, Reached({start}, edges), edges != [], u, start, current, e);
    }
    HuntGrows(s, m, start, edges, u, current, e);
  }
}
