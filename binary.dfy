/**
 * `binary` of `algorithms.rs`: every cell of a rectangular grid, in vector order, links
 * to its south or its east cell, whichever the grid contains (chosen at random when both are).
 */
module BinaryTree {
  import opened Pos
  import opened Opt
  import opened Topology
  import opened LinkGraph
  import opened Growth
  import opened Grids

  /** `Position::new(row + 1, col)`. */
  function South(p: Position): Position
  {
    Position(p.row + 1, p.col)
  }

  /** `Position::new(row, col + 1)`. */
  function East(p: Position): Position
  {
    Position(p.row, p.col + 1)
  }

  /** The candidates: the south and the east cell, those the grid contains, south first. */
  function Choices(s: Shape, p: Position): (r: seq<Position>)
    requires WellFormed(s)
    ensures forall q :: q in r <==> (q == South(p) || q == East(p)) && Contains(s, q)
  {
    (if Contains(s, South(p)) then [South(p)] else []) + (if Contains(s, East(p)) then [East(p)] else [])
  }

  /**
   * In a rectangular grid every candidate is a neighbour further on in the cell vector,
   * and only the last cell, the bottom-right corner, has none.
   */
  lemma ChoicesAt(s: Shape, p: Position)
    requires s.Rect? && Laid(s, p)
    ensures forall q :: q in Choices(s, p) ==> q in Neighbors(s, p) && Laid(s, q) && Index(s, p) < Index(s, q)
    ensures Choices(s, p) == [] <==> Index(s, p) + 1 == CellCount(s)
  {
    var w, h := s.width, s.height;
    RectOffset(s, p.row);
    RectOffset(s, p.row + 1);
    RectOffset(s, h);
    assert Index(s, p) == p.col + p.row * w;
    assert CellCount(s) == h * w;
    forall q | q in Choices(s, p)
      ensures q in Neighbors(s, p) && Laid(s, q) && Index(s, p) < Index(s, q)
    {
      RectNeighborsExact(s, p, q);
      RectOffset(s, q.row);
      assert (p.row + 1) * w == p.row * w + w;
    }
    if p.row + 1 < h {
      MulMonotone(w, p.row + 2, h);
      assert (p.row + 2) * w == p.row * w + w + w;
    }
    if p.row + 1 == h {
      assert h * w == p.row * w + w;
    }
  }

  /** Edge `k` leaves the cell at slot `k` for one of its candidates. */
  predicate SlotEdges(s: Shape, ps: seq<Position>, edges: seq<Edge>)
    requires WellFormed(s)
  {
    |edges| <= |ps| && forall k :: 0 <= k < |edges| ==> edges[k].from == ps[k] && edges[k].to in Choices(s, ps[k])
  }

  lemma SlotEdgesSnoc(s: Shape, ps: seq<Position>, edges: seq<Edge>, q: Position)
    requires WellFormed(s) && SlotEdges(s, ps, edges) && |edges| < |ps| && q in Choices(s, ps[|edges|])
    ensures SlotEdges(s, ps, edges + [Edge(ps[|edges|], q)])
  {
  }

  /**
   * `binary`: the cell at slot `i` links to one of its candidates, for every slot in turn.
   * The calls are recorded in `edges`: one per cell but the last, from that cell to a candidate.
   */
  method Binary(g: MazeGrid) returns (ghost edges: seq<Edge>)
    requires g.Valid() && g.shape.Rect?
    modifies g`links, g.cells`links
    ensures g.Valid()
    ensures Within(old(g.links), edges) && g.links == AddAll(old(g.links), edges)
    ensures |edges| == (if |g.cells| == 0 then 0 else |g.cells| - 1)
    ensures SlotEdges(g.shape, g.Positions(), edges)
  {
    ghost var m := g.links;
    ghost var ps := g.Positions();
    edges := [];
    var i := 0;
    while i < |g.cells|
      invariant g.Valid() && i <= |g.cells|
      invariant Within(m, edges) && g.links == AddAll(m, edges)
      invariant |edges| + (if 0 < i == |g.cells| then 1 else 0) == i
      invariant SlotEdges(g.shape, ps, edges)
    {
      edges := LinkCell(g, m, ps, edges, i);
      i := i + 1;
    }
  }

  /** One turn of `binary`'s loop: the cell at slot `i` links to a candidate, if it has one. */
  method LinkCell(g: MazeGrid, ghost m: Links, ghost ps: seq<Position>, ghost edges: seq<Edge>, i: nat)
    returns (ghost edges': seq<Edge>)
    requires g.Valid() && g.shape.Rect? && ps == g.Positions() && i < |g.cells|
    requires Within(m, edges) && g.links == AddAll(m, edges)
    requires |edges| == i && SlotEdges(g.shape, ps, edges)
    modifies g`links, g.cells`links
    ensures g.Valid()
    ensures Within(m, edges') && g.links == AddAll(m, edges') && SlotEdges(g.shape, ps, edges')
    ensures |edges'| == (if i + 1 == |g.cells| then i else i + 1)
  {
    var c := g.cells[i].pos;
    assert c == ps[i];
    ChoicesAt(g.shape, c);
    var choices := ToSeq(g.GetPos(South(c))) + ToSeq(g.GetPos(East(c)));
    assert choices == Choices(g.shape, c);
    assert Index(g.shape, c) == i && CellCount(g.shape) == |g.cells|;
    edges' := edges;
    if |choices| > 0 {
      var k :| 0 <= k < |choices|;
      var e := Edge(c, choices[k]);
      ContainedIsLaid(g.shape, e.to);
      AddAllSnoc(m, edges, e);
      SlotEdgesSnoc(g.shape, ps, edges, choices[k]);
      g.Link(c, choices[k]);
      edges' := edges + [e];
    }
  }

  /** Call `i` of `binary` leaves the cell at slot `i` for a cell at a later slot. */
  lemma SlotEdgeAt(s: Shape, ps: seq<Position>, edges: seq<Edge>, i: nat)
    requires s.Rect? && PolarWiring.Slotted(s, ps) && |ps| == CellCount(s) && SlotEdges(s, ps, edges) && i < |edges|
    ensures edges[i].from == ps[i] && Laid(s, edges[i].to)
    ensures i < Index(s, edges[i].to) < |ps| && ps[Index(s, edges[i].to)] == edges[i].to
  {
    ChoicesAt(s, ps[i]);
    IndexInRange(s, edges[i].to);
    IndexInjective(s, ps[Index(s, edges[i].to)], edges[i].to);
  }

  /**
   * Taken backwards from the bottom-right corner, each call of `binary` joins a cell already
   * reached to a new one.
   */
  lemma BinaryOrder(s: Shape, ps: seq<Position>, edges: seq<Edge>, bw: seq<Edge>)
    requires s.Rect? && PolarWiring.Slotted(s, ps) && |ps| == CellCount(s) && |ps| > 0
    requires |edges| == |ps| - 1 && SlotEdges(s, ps, edges)
    requires |bw| == |edges| && forall k :: 0 <= k < |bw| ==> bw[k] == Edge(edges[|edges| - 1 - k].to, edges[|edges| - 1 - k].from)
    ensures Forest({ps[|ps| - 1]}, bw)
  {
    var n := |ps|;
    var root := ps[n - 1];
    forall k | 0 <= k < |bw|
      ensures bw[k].to != root && (bw[k].from == root || exists l :: 0 <= l < k && bw[l].to == bw[k].from)
    {
      var i := |edges| - 1 - k;
      SlotEdgeAt(s, ps, edges, i);
      var t := Index(s, edges[i].to);
      assert bw[k] == Edge(edges[i].to, ps[i]);
      assert Index(s, ps[i]) == i && Index(s, root) == n - 1;
      if t < n - 1 {
        var l := |edges| - 1 - t;
        assert bw[l] == Edge(edges[t].to, ps[t]);
      }
    }
    forall k, l | 0 <= l < k < |bw|
      ensures bw[l].to != bw[k].to
    {
      assert bw[k].to == ps[|edges| - 1 - k] && bw[l].to == ps[|edges| - 1 - l];
      assert Index(s, bw[l].to) != Index(s, bw[k].to);
    }
    ForestByOrder({root}, bw);
  }

  /** The cells the calls of `binary` reach are laid out. */
  lemma BinaryReachWithin(s: Shape, ps: seq<Position>, edges: seq<Edge>, bw: seq<Edge>)
    requires s.Rect? && PolarWiring.Slotted(s, ps) && |ps| > 0
    requires |edges| == |ps| - 1 && SlotEdges(s, ps, edges)
    requires |bw| == |edges| && forall k :: 0 <= k < |bw| ==> bw[k] == Edge(edges[|edges| - 1 - k].to, edges[|edges| - 1 - k].from)
    ensures Reached({ps[|ps| - 1]}, bw) <= LaidSet(s)
  {
    forall p | p in Reached({ps[|ps| - 1]}, bw)
      ensures Laid(s, p)
    {
      if p != ps[|ps| - 1] {
        var k := HeadIndex(bw, p);
        assert p == ps[|edges| - 1 - k];
      }
    }
  }

  /** Taken backwards from the bottom-right corner, the calls of `binary` reach every cell. */
  lemma BinaryReachCover(s: Shape, ps: seq<Position>, edges: seq<Edge>, bw: seq<Edge>)
    requires s.Rect? && PolarWiring.Slotted(s, ps) && |ps| == CellCount(s) && |ps| > 0
    requires |edges| == |ps| - 1 && SlotEdges(s, ps, edges)
    requires |bw| == |edges| && forall k :: 0 <= k < |bw| ==> bw[k] == Edge(edges[|edges| - 1 - k].to, edges[|edges| - 1 - k].from)
    ensures LaidSet(s) <= Reached({ps[|ps| - 1]}, bw)
  {
    var n := |ps|;
    forall p | p in LaidSet(s)
      ensures p in Reached({ps[n - 1]}, bw)
    {
      IndexInRange(s, p);
      var t := Index(s, p);
      IndexInjective(s, ps[t], p);
      if t < n - 1 {
        assert bw[|edges| - 1 - t].to == edges[t].from == p;
        HeadIn(bw, |edges| - 1 - t);
      }
    }
  }

  /**
   * The links `binary` makes form a spanning tree: taken backwards from the bottom-right
   * corner, each joins a cell already reached to a new one, and together they reach every cell.
   */
  lemma BinarySpanning(s: Shape, ps: seq<Position>, edges: seq<Edge>)
    requires s.Rect? && PolarWiring.Slotted(s, ps) && |ps| == CellCount(s) && |ps| > 0
    requires |edges| == |ps| - 1 && SlotEdges(s, ps, edges)
    ensures Forest({ps[|ps| - 1]}, Backward(edges))
    ensures Reached({ps[|ps| - 1]}, Backward(edges)) == LaidSet(s)
  {
    var bw := Backward(edges);
    BinaryOrder(s, ps, edges, bw);
    BinaryReachWithin(s, ps, edges, bw);
    BinaryReachCover(s, ps, edges, bw);
  }

  /** `binary` on a grid with cells leaves a spanning tree rooted at the bottom-right corner. */
  method BinaryTree(g: MazeGrid) returns (ghost edges: seq<Edge>)
    requires g.Valid() && g.shape.Rect? && |g.cells| > 0
    modifies g`links, g.cells`links
    ensures g.Valid()
    ensures Within(old(g.links), edges) && g.links == AddAll(old(g.links), edges)
    ensures Forest({g.cells[|g.cells| - 1].pos}, edges)
    ensures Reached({g.cells[|g.cells| - 1].pos}, edges) == LaidSet(g.shape)
    ensures NeighborEdges(g.shape, edges)
  {
    ghost var m := g.links;
    var forward := Binary(g);
    var ps := g.Positions();
    BinarySpanning(g.shape, ps, forward);
    AddAllBackward(m, forward);
    BackwardNeighbors(g.shape, ps, forward);
    edges := Backward(forward);
  }

  /** Turned around, every call of `binary` still joins neighbours. */
  lemma BackwardNeighbors(s: Shape, ps: seq<Position>, edges: seq<Edge>)
    requires s.Rect? && PolarWiring.Slotted(s, ps) && SlotEdges(s, ps, edges)
    ensures NeighborEdges(s, Backward(edges))
  {
    var bw := Backward(edges);
    forall k | 0 <= k < |bw|
      ensures bw[k].to in Neighbors(s, bw[k].from)
    {
      var i := |edges| - 1 - k;
      ChoicesAt(s, ps[i]);
      NeighborsSymmetric(s, edges[i].from, edges[i].to);
    }
  }
}
