/**
 * `aldous_broder` of `algorithms.rs`: a random walk from a random cell that records a link
 * whenever it steps into a cell it has not linked yet, and stops once every cell is linked.
 * The links are buffered and made after the walk.
 */
module AldousBroder {
  import opened Pos
  import opened Topology
  import opened LinkGraph
  import opened Growth
  import opened Generators
  import opened Grids

  /**
   * The walk's bookkeeping: `linked` is the set of cells the recorded links reach from
   * `start`, the walk stands on one of them, and `unvisited` counts the cells left out.
   */
  ghost predicate Walked(s: Shape, n: nat, start: Position, pos: Position, linked: set<Position>, unvisited: nat, links: seq<Edge>)
    requires WellFormed(s)
  {
    && pos in linked && linked <= LaidSet(s) && |LaidSet(s)| == n
    && |linked| + unvisited == n
    && Forest({start}, links) && Reached({start}, links) == linked
    && NeighborEdges(s, links) && |links| + 1 == |linked|
  }

  /** The walk moves to a neighbour; stepping into a cell not linked yet records the link and counts the cell. */
  lemma WalkStep(s: Shape, n: nat, start: Position, pos: Position, linked: set<Position>, unvisited: nat,
                 links: seq<Edge>, next: Position)
    requires WellFormed(s) && Walked(s, n, start, pos, linked, unvisited, links) && next in Neighbors(s, pos)
    ensures next in linked ==> Walked(s, n, start, next, linked, unvisited, links)
    ensures next !in linked ==>
      (unvisited > 0 && Walked(s, n, start, next, linked + {next}, unvisited - 1, links + [Edge(pos, next)]))
  {
    LinkableStep(s, pos, next);
    if next !in linked {
      ForestSnoc({start}, links, Edge(pos, next));
      SubsetCard(linked + {next}, LaidSet(s));
      NeighborEdgesAppend(s, links, [Edge(pos, next)]);
    }
  }

  /**
   * `while unvisited > 0`: the walk from `start`, cut off after `fuel` steps. When it runs to
   * the end (`finished`), the recorded links form a spanning tree hanging off `start`.
   */
  method Wander(g: MazeGrid, start: Position, fuel: nat) returns (links: seq<Edge>, finished: bool)
    requires g.Valid() && start in LaidSet(g.shape)
    ensures Forest({start}, links) && NeighborEdges(g.shape, links)
    ensures finished ==> Reached({start}, links) == LaidSet(g.shape) && |links| == |g.cells| - 1
  {
    var s, n := g.shape, |g.cells|;
    g.LaidCount();
    var pos := start;
    var linked := {pos};
    assert n > 0 by {
      SubsetCard({start}, LaidSet(s));
    }
    var unvisited: nat := n - 1;
    links := [];
    var steps := fuel;
    while unvisited > 0 && steps > 0
      invariant Walked(s, n, start, pos, linked, unvisited, links)
      decreases steps
    {
      var choices := g.Neighbors(pos);
      if |choices| > 0 {
        var k :| 0 <= k < |choices|;
        var next := choices[k];
        WalkStep(s, n, start, pos, linked, unvisited, links, next);
        if next !in linked {
          links := links + [Edge(pos, next)];
          linked := linked + {next};
          unvisited := unvisited - 1;
        }
        pos := next;
      }
      steps := steps - 1;
    }
    finished := unvisited == 0;
    if finished {
      SubsetFull(linked, LaidSet(s));
    }
  }

  /**
   * `aldous_broder`: the walk from a random cell, then its buffered links. When the walk
   * ends, the grid holds a spanning tree: `cells - 1` links, each from a cell already reached
   * into a neighbour reached for the first time. A walk cut off by `fuel` never reaches the
   * point where links are made.
   */
  method AldousBroder(g: MazeGrid, fuel: nat) returns (finished: bool, ghost start: Position, ghost edges: seq<Edge>)
    requires g.Valid()
    modifies g`links, g.cells`links
    ensures g.Valid()
    ensures !finished ==> g.links == old(g.links)
    ensures finished ==> Within(old(g.links), edges) && g.links == AddAll(old(g.links), edges)
    ensures finished ==> NeighborEdges(g.shape, edges)
    ensures finished && |g.cells| > 0 ==>
      start in LaidSet(g.shape) && Forest({start}, edges) && Reached({start}, edges) == LaidSet(g.shape) &&
      |edges| == |g.cells| - 1
    ensures |g.cells| == 0 ==> finished && edges == []
  {
    if |g.cells| == 0 {
      return true, Position(0, 0), [];
    }
    var k :| 0 <= k < |g.cells|;
    var pos := g.cells[k].pos;
    start := pos;
    var links;
    links, finished := Wander(g, pos, fuel);
    edges := links;
    if finished {
      forall j | 0 <= j < |links|
        ensures Contains(g.shape, links[j].from) && Contains(g.shape, links[j].to)
      {
        LinkableStep(g.shape, links[j].from, links[j].to);
      }
      ApplyLinks(g, links);
    }
  }
}
