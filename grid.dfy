/**
 * The grids: a vector of cells laid out row by row (`Grid`) or ring by ring
 * (`PolarGrid`), with the `MazeGrid` operations shared by both.
 */
module Grids {
  import opened Pos
  import opened Opt
  import opened Topology
  import opened Cells
  import opened LinkGraph
  import PolarWiring


  /** Cell `i` of `built` sits at a laid-out position whose index is `i`. */
  ghost predicate Placed(s: Shape, built: seq<Cell>)
  {
    forall i :: 0 <= i < |built| ==> Laid(s, built[i].pos) && Index(s, built[i].pos) == i
  }

  /** The neighbour fields a cell constructor leaves: all four compass fields for `Grid`, empty ring fields for `PolarGrid`. */
  function InitialAdjacency(s: Shape, p: Position): Adjacency
  {
    match s
    case Rect(width, height) => CompassOf(width, height, p)
    case Polar(_, _) => Ring(None, None, None, [])
  }

  /** The cells sit at their slots, as constructed: weight 0, not in the solution, no links, initial neighbour fields. */
  ghost predicate Initialised(s: Shape, built: seq<Cell>)
    reads built
  {
    && Placed(s, built)
    && forall i :: 0 <= i < |built| ==>
      && built[i].weight == 0 && !built[i].inSolution && built[i].links == {}
      && built[i].adjacency == InitialAdjacency(s, built[i].pos)
  }

  /**
   * One class for both grid types: `shape` says which. The ghost maps mirror the
   * cells' link sets, weights and solution flags, so that the algorithms can be
   * specified on values.
   */
  class MazeGrid {
    const shape: Shape
    const cells: seq<Cell>
    /** `row_offsets` of a polar grid (unused by a rectangular one). */
    const rowOffsets: seq<nat>
    ghost var links: Links
    ghost var weights: map<Position, nat>
    ghost var marked: set<Position>

    /** Cell `i` sits at the slot its position's index names, and every laid-out position has a slot. */
    ghost predicate Layout()
    {
      && WellFormed(shape)
      && |cells| == CellCount(shape)
      && Placed(shape, cells)
      && (shape.Polar? ==>
            |rowOffsets| == RowCount(shape) &&
            forall r :: 0 <= r < |rowOffsets| ==> rowOffsets[r] == Offset(shape, r))
    }

    /** Every cell holds the neighbour fields of its position. */
    ghost predicate Wired()
      reads cells`adjacency
    {
      Layout() && forall i :: 0 <= i < |cells| ==> cells[i].adjacency == AdjacencyOf(shape, cells[i].pos)
    }

    /** `links` mirrors the cells' link sets; links are symmetric and join contained cells. */
    ghost predicate LinksMirrored()
      reads this`links, cells`links
    {
      && Layout()
      && links.Keys == LaidSet(shape)
      && (forall i :: 0 <= i < |cells| ==> links[cells[i].pos] == cells[i].links)
      && Symmetric(links)
      && (forall p, q :: p in links && q in links[p] ==> Topology.Contains(shape, p))
    }

    ghost predicate WeightsMirrored()
      reads this`weights, cells`weight
    {
      && Layout()
      && weights.Keys == LaidSet(shape)
      && (forall i :: 0 <= i < |cells| ==> weights[cells[i].pos] == cells[i].weight)
    }

    ghost predicate MarksMirrored()
      reads this`marked, cells`inSolution
    {
      && Layout()
      && (forall p :: p in marked ==> Laid(shape, p))
      && (forall i :: 0 <= i < |cells| ==> (cells[i].pos in marked <==> cells[i].inSolution))
    }

    ghost predicate Valid()
      reads this, cells
    {
      Wired() && LinksMirrored() && WeightsMirrored() && MarksMirrored()
    }

    /** `Grid::new(width, height)`: `width*height` cells in row-major order with compass neighbours. */
    constructor Grid(width: nat, height: nat)
      ensures shape == Rect(width, height) && |cells| == height * width
      ensures Valid()
      ensures forall p :: p in links ==> links[p] == {}
      ensures forall p :: p in weights ==> weights[p] == 0
      ensures marked == {}
    {
      var s := Rect(width, height);
      var built: seq<Cell> := [];
      for row := 0 to height
        invariant |built| == Offset(s, row) && Initialised(s, built)
      {
        built := AppendRow(s, row, built);
      }
      RectOffset(s, height);
      shape := s;
      cells := built;
      rowOffsets := [];
      links := map p | p in LaidSet(s) :: {};
      weights := map p | p in LaidSet(s) :: 0;
      marked := {};
      new;
      BlankMirrored();
    }

    /**
     * The inner loop of `Grid::new` and of `_make_cells`: one fresh cell for each column
     * of row `row`, appended in column order.
     */
    static method AppendRow(s: Shape, row: nat, built: seq<Cell>) returns (r: seq<Cell>)
      requires WellFormed(s) && row < RowCount(s) && |built| == Offset(s, row) && Initialised(s, built)
      ensures |r| == Offset(s, row + 1) && Initialised(s, r)
      ensures r[..|built|] == built && forall i :: |built| <= i < |r| ==> fresh(r[i])
    {
      r := built;
      for col := 0 to ColumnCount(s, row)
        invariant |r| == Offset(s, row) + col && Initialised(s, r)
        invariant r[..|built|] == built && forall i :: |built| <= i < |r| ==> fresh(r[i])
      {
        var c;
        if s.Rect? {
          c := NewRectCell(s.width, s.height, row, col);
        } else {
          c := new Cell.Polar(row, col);
        }
        r := r + [c];
      }
      OffsetStep(s, row);
    }

    /** The body of `Grid::new`'s inner loop: a fresh cell whose compass fields name the neighbours inside the grid. */
    static method NewRectCell(width: nat, height: nat, row: nat, col: nat) returns (c: Cell)
      ensures fresh(c) && c.pos == Position(row, col)
      ensures c.adjacency == CompassOf(width, height, c.pos)
      ensures c.weight == 0 && !c.inSolution && c.links == {}
    {
      c := new Cell(row, col);
      if row < height - 1 {
        c.adjacency := c.adjacency.(south := Some(Position(row + 1, col)));
      }
      if row > 0 {
        c.adjacency := c.adjacency.(north := Some(Position(row - 1, col)));
      }
      if col > 0 {
        c.adjacency := c.adjacency.(west := Some(Position(row, col - 1)));
      }
      if col < width - 1 {
        c.adjacency := c.adjacency.(east := Some(Position(row, col + 1)));
      }
    }

    /**
     * `PolarGrid::new(rows)`, with the ring sizes the float computation produces
     * passed in: the cells ring by ring, then their ring neighbours.
     */
    constructor PolarGrid(rows: nat, columnCounts: seq<nat>)
      requires WellFormed(Polar(rows, columnCounts))
      ensures shape == Polar(rows, columnCounts)
      ensures Valid()
      ensures forall p :: p in links ==> links[p] == {}
      ensures forall p :: p in weights ==> weights[p] == 0
      ensures marked == {}
    {
      var s := Polar(rows, columnCounts);
      var built, offsets := MakeCells(s);
      shape := s;
      cells := built;
      rowOffsets := offsets;
      links := map p | p in LaidSet(s) :: {};
      weights := map p | p in LaidSet(s) :: 0;
      marked := {};
      new;
      BlankMirrored();
      label unwired:
      SetNeighbors();
      MirrorsKept@unwired();
    }

    /** `_make_cells`: the centre cell, then each further ring's cells, recording each ring's offset. */
    static method MakeCells(s: Shape) returns (built: seq<Cell>, offsets: seq<nat>)
      requires WellFormed(s) && s.Polar?
      ensures |built| == CellCount(s) && Initialised(s, built)
      ensures forall i :: 0 <= i < |built| ==> fresh(built[i])
      ensures |offsets| == RowCount(s) && forall r :: 0 <= r < |offsets| ==> offsets[r] == Offset(s, r)
    {
      var centre := new Cell.Polar(0, 0);
      built := [centre];
      offsets := [0];
      OffsetStep(s, 0);
      var row: nat := 1;
      while row < s.rows
        invariant 1 <= row <= RowCount(s)
        invariant |built| == Offset(s, row) && Initialised(s, built)
        invariant |offsets| == row && forall r :: 0 <= r < row ==> offsets[r] == Offset(s, r)
        invariant forall i :: 0 <= i < |built| ==> fresh(built[i])
      {
        built, offsets := AppendRing(s, row, built, offsets);
        row := row + 1;
      }
    }

    /** One pass of `_make_cells`'s loop: ring `row`'s offset, then its cells. */
    static method AppendRing(s: Shape, row: nat, built: seq<Cell>, offsets: seq<nat>)
      returns (built': seq<Cell>, offsets': seq<nat>)
      requires WellFormed(s) && s.Polar? && 1 <= row < RowCount(s)
      requires |built| == Offset(s, row) && Initialised(s, built)
      requires |offsets| == row && forall r :: 0 <= r < row ==> offsets[r] == Offset(s, r)
      ensures |built'| == Offset(s, row + 1) && Initialised(s, built')
      ensures |offsets'| == row + 1 && forall r :: 0 <= r < row + 1 ==> offsets'[r] == Offset(s, r)
      ensures forall i :: 0 <= i < |built'| ==> built'[i] in built || fresh(built'[i])
    {
      offsets' := offsets + [offsets[row - 1] + s.columnCounts[row - 1]];
      OffsetStep(s, row - 1);
      built' := AppendRow(s, row, built);
      assert forall i :: 0 <= i < |built| ==> built'[i] == built[i];
    }

    /**
     * `_set_neighbors`: visits the cells in order; each cell outside the centre gets
     * its ccw, cw and inward neighbours and is appended to its parent's outward list.
     */
    method SetNeighbors()
      requires Layout() && shape.Polar? && Initialised(shape, cells)
      modifies cells`adjacency
      ensures Wired()
    {
      forall j | 0 <= j < |cells|
        ensures cells[j].adjacency == PolarWiring.Partial(shape, cells[j].pos, 0)
      {
        PolarWiring.PartialStart(shape, cells[j].pos);
      }
      for i := 0 to |cells|
        invariant PolarWiring.WiredUpTo(shape, Positions(), Adjacencies(), i)
      {
        var pos := cells[i].pos;
        if pos.row > 0 {
          ghost var before := Adjacencies();
          WireCell(i);
          PolarWiring.WireStep(shape, Positions(), before, i);
        } else {
          PolarWiring.CentreStep(shape, Positions(), Adjacencies(), i);
        }
      }
      forall j | 0 <= j < |cells|
        ensures cells[j].adjacency == AdjacencyOf(shape, cells[j].pos)
      {
        PolarWiring.PartialEnd(shape, cells[j].pos);
      }
    }

    /** The positions of the cells, in vector order. */
    function Positions(): (ps: seq<Position>)
      requires Layout()
      ensures |ps| == |cells| && PolarWiring.Slotted(shape, ps)
      ensures forall j :: 0 <= j < |cells| ==> ps[j] == cells[j].pos
    {
      seq(|cells|, j requires 0 <= j < |cells| => cells[j].pos)
    }

    /** The cells' neighbour fields, in vector order. */
    ghost function Adjacencies(): (r: seq<Adjacency>)
      reads cells`adjacency
      ensures |r| == |cells| && forall j :: 0 <= j < |cells| ==> r[j] == cells[j].adjacency
    {
      AdjacenciesBefore(|cells|)
    }

    ghost function AdjacenciesBefore(n: nat): (r: seq<Adjacency>)
      requires n <= |cells|
      reads cells`adjacency
      ensures |r| == n && forall j :: 0 <= j < n ==> r[j] == cells[j].adjacency
    {
      if n == 0 then [] else AdjacenciesBefore(n - 1) + [cells[n - 1].adjacency]
    }

    /**
     * One step of `_set_neighbors` for the cell at slot `i` outside the centre: it gets
     * its ccw, cw and inward neighbours, and its parent gets it as the next outward child.
     */
    method WireCell(i: nat)
      requires Layout() && shape.Polar? && i < |cells| && cells[i].pos.row > 0
      requires PolarWiring.WiredUpTo(shape, Positions(), Adjacencies(), i)
      modifies cells`adjacency
      ensures Adjacencies() == PolarWiring.Wire(shape, Positions(), old(Adjacencies()), i)
    {
      var pos := cells[i].pos;
      PolarWiring.ParentSlot(shape, pos);
      ghost var k := Index(shape, Inward(shape, pos));
      assert cells[i].adjacency == PolarWiring.Partial(shape, pos, i);
      assert cells[k].adjacency == PolarWiring.Partial(shape, cells[k].pos, i);
      SetRingFields(i);
      label fieldsSet:
      AppendOutward(i);
      ghost var r := PolarWiring.Wire(shape, Positions(), old(Adjacencies()), i);
      forall j | 0 <= j < |cells|
        ensures cells[j].adjacency == r[j]
      {
        if j == i {
          assert cells[j].adjacency == old@fieldsSet(cells[j].adjacency);
        } else if j == k {
          IndexInjective(shape, cells[j].pos, Inward(shape, pos));
          assert old@fieldsSet(cells[j].adjacency) == old(cells[j].adjacency);
        } else {
          assert cells[j].adjacency == old@fieldsSet(cells[j].adjacency) == old(cells[j].adjacency);
        }
      }
    }

    /** The first half of a step: the cell at slot `i` gets its ccw, cw and inward neighbours; no other cell changes. */
    method SetRingFields(i: nat)
      requires Layout() && shape.Polar? && i < |cells| && cells[i].pos.row > 0 && cells[i].adjacency.Ring?
      modifies cells`adjacency
      ensures cells[i].adjacency ==
        Ring(Some(Ccw(shape, cells[i].pos)), Some(Cw(shape, cells[i].pos)), Some(Inward(shape, cells[i].pos)),
             old(cells[i].adjacency.outward))
      ensures forall j :: 0 <= j < |cells| && j != i ==> cells[j].adjacency == old(cells[j].adjacency)
    {
      var pos := cells[i].pos;
      var numCols := shape.columnCounts[pos.row];
      var ratio := numCols / shape.columnCounts[pos.row - 1];
      assert ratio == Ratio(shape, pos.row);
      var parentPos := Position(pos.row - 1, pos.col / ratio);
      assert parentPos == Inward(shape, pos);
      match Get(pos) {
        case Some(cell) =>
          cell.adjacency := cell.adjacency.(cw := Some(Position(pos.row, if pos.col == numCols - 1 then 0 else pos.col + 1)));
          cell.adjacency := cell.adjacency.(ccw := Some(Position(pos.row, if pos.col == 0 then numCols - 1 else pos.col - 1)));
          cell.adjacency := cell.adjacency.(inward := Some(parentPos));
        case None =>
          assert false;
      }
    }

    /** The second half of a step: the parent of the cell at slot `i` appends it to its outward list; no other cell changes. */
    method AppendOutward(i: nat)
      requires Layout() && shape.Polar? && i < |cells| && cells[i].pos.row > 0
      requires Contains(Inward(shape, cells[i].pos)) && cells[Index(shape, Inward(shape, cells[i].pos))].adjacency.Ring?
      modifies cells`adjacency
      ensures var k := Index(shape, Inward(shape, cells[i].pos));
        && cells[k].adjacency == old(cells[k].adjacency).(outward := old(cells[k].adjacency.outward) + [cells[i].pos])
        && forall j :: 0 <= j < |cells| && j != k ==> cells[j].adjacency == old(cells[j].adjacency)
    {
      var pos := cells[i].pos;
      var numCols := shape.columnCounts[pos.row];
      var ratio := numCols / shape.columnCounts[pos.row - 1];
      assert ratio == Ratio(shape, pos.row);
      var parentPos := Position(pos.row - 1, pos.col / ratio);
      assert parentPos == Inward(shape, pos);
      match Get(parentPos) {
        case Some(parent) =>
          parent.adjacency := parent.adjacency.(outward := parent.adjacency.outward + [pos]);
        case None =>
          assert false;
      }
    }

    /** Every laid-out position has its cell at its index. */
    lemma EveryLaidHasCell()
      requires Layout()
      ensures forall p :: Laid(shape, p) ==> Index(shape, p) < |cells| && cells[Index(shape, p)].pos == p
    {
      forall p | Laid(shape, p)
        ensures Index(shape, p) < |cells| && cells[Index(shape, p)].pos == p
      {
        IndexInRange(shape, p);
        IndexInjective(shape, p, cells[Index(shape, p)].pos);
      }
    }

    /** The positions of `cells()` collected into a set: exactly the laid-out positions. */
    function PositionSet(): (r: set<Position>)
      requires Layout()
      ensures r == LaidSet(shape)
    {
      EveryLaidHasCell();
      set i | 0 <= i < |cells| :: cells[i].pos
    }

    /** There are as many laid-out positions as cells. */
    lemma LaidCount()
      requires Layout()
      ensures |LaidSet(shape)| == |cells|
    {
      var ps := Positions();
      forall i, j | 0 <= i < j < |ps|
        ensures ps[i] != ps[j]
      {
      }
      DistinctCard(ps);
      EveryLaidHasCell();
      assert (set p | p in ps) == LaidSet(shape);
    }

    /** A contained position's cell sits at the position's index; no other cell has that position. */
    lemma SlotOf(p: Position)
      requires Layout()
      ensures Topology.Contains(shape, p) ==> Index(shape, p) < |cells| && cells[Index(shape, p)].pos == p
      ensures !Topology.Contains(shape, p) ==>
        forall i :: 0 <= i < |cells| ==> cells[i].pos != p || (shape.Polar? && shape.rows == 0)
    {
      ContainedIsLaid(shape, p);
      if Laid(shape, p) {
        IndexInRange(shape, p);
        IndexInjective(shape, p, cells[Index(shape, p)].pos);
      }
    }

    /** The source's lookup formulas compute `Index`. */
    lemma IndexFormula(p: Position)
      requires Layout() && Topology.Contains(shape, p)
      ensures Index(shape, p) < |cells| && cells[Index(shape, p)].pos == p
      ensures shape.Rect? ==> Index(shape, p) == p.col + p.row * shape.width
      ensures shape.Polar? ==> Index(shape, p) == p.col + rowOffsets[p.row]
    {
      SlotOf(p);
      if shape.Rect? {
        RectOffset(shape, p.row);
      }
    }

    /** `contains`: a contained position has its cell at its index; any other position has no cell (but the centre of a zero-ring polar grid). */
    predicate Contains(p: Position)
      requires Layout()
      ensures Contains(p) <==> Topology.Contains(shape, p)
      ensures Contains(p) ==> Index(shape, p) < |cells| && cells[Index(shape, p)].pos == p
      ensures !Contains(p) ==>
        forall i :: 0 <= i < |cells| ==> cells[i].pos != p || (shape.Polar? && shape.rows == 0)
    {
      SlotOf(p);
      match shape
      case Rect(width, height) => p.row < height && p.col < width
      case Polar(rows, counts) => p.row < rows && p.col < counts[p.row]
    }

    /** `get` / `get_mut`: the cell at `p` exactly when `p` is contained. */
    function Get(p: Position): (r: Option<Cell>)
      requires Layout()
      ensures r.Some? <==> Topology.Contains(shape, p)
      ensures r.Some? ==> r.value.pos == p && Index(shape, p) < |cells| && r.value == cells[Index(shape, p)]
    {
      if !Contains(p) then None
      else
        IndexFormula(p);
        var idx := if shape.Rect? then p.col + p.row * shape.width else p.col + rowOffsets[p.row];
        if idx < |cells| then Some(cells[idx]) else None
    }

    /** `get_pos`: the queried position exactly when it is contained. */
    function GetPos(p: Position): (r: Option<Position>)
      requires Layout()
      ensures r.Some? <==> Topology.Contains(shape, p)
      ensures r.Some? ==> r.value == p
    {
      match Get(p)
      case Some(cell) => Some(cell.pos)
      case None => None
    }

    /** `neighbors`: the contained cell's neighbour list, empty for a position outside the grid. */
    function Neighbors(p: Position): (r: seq<Position>)
      reads cells`adjacency
      requires Wired()
      ensures r == Topology.Neighbors(shape, p)
      ensures forall q :: q in r ==> Topology.Contains(shape, q)
    {
      forall q | q in Topology.Neighbors(shape, p)
        ensures Topology.Contains(shape, q)
      {
        NeighborsContained(shape, p, q);
      }
      match Get(p)
      case Some(cell) => cell.Neighbors()
      case None => []
    }

    /** `has_links`: the position is contained and its cell has at least one link. */
    predicate HasLinks(p: Position)
      reads this`links, cells`links
      requires LinksMirrored()
      ensures HasLinks(p) <==> Topology.Contains(shape, p) && links[p] != {}
    {
      match Get(p)
      case Some(cell) => cell.links != {}
      case None => false
    }

    /** `num_links`: the size of the cell's link set (0 outside the grid). */
    function NumLinks(p: Position): (n: nat)
      reads this`links, cells`links
      requires LinksMirrored()
      ensures Topology.Contains(shape, p) ==> n == |links[p]|
      ensures !Topology.Contains(shape, p) ==> n == 0
    {
      match Get(p)
      case Some(cell) => |cell.links|
      case None => 0
    }

    /** `random_pos`: some contained position, or `None` when no position is contained. */
    method RandomPos() returns (r: Option<Position>)
      requires Layout()
      ensures r.Some? ==> Topology.Contains(shape, r.value)
      ensures r.None? ==> forall p :: !Topology.Contains(shape, p)
    {
      match shape
      case Rect(width, height) =>
        if width == 0 || height == 0 {
          return None;
        }
        var row :| 0 <= row < height;
        var col :| 0 <= col < width;
        return Some(Position(row, col));
      case Polar(rows, counts) =>
        if rows == 0 {
          return None;
        }
        var row :| 0 <= row < rows;
        var col :| 0 <= col < counts[row];
        return Some(Position(row, col));
    }

    /** The cells have no links, weight 0 and no solution mark, as constructed. */
    ghost predicate Blank()
      reads cells`links, cells`weight, cells`inSolution
    {
      forall i :: 0 <= i < |cells| ==> cells[i].links == {} && cells[i].weight == 0 && !cells[i].inSolution
    }

    /** Blank cells are mirrored by empty link sets, zero weights and no marks. */
    lemma BlankMirrored()
      requires Layout() && Blank()
      requires links == (map p | p in LaidSet(shape) :: {})
      requires weights == (map p | p in LaidSet(shape) :: 0)
      requires marked == {}
      ensures LinksMirrored() && WeightsMirrored() && MarksMirrored()
    {
      forall i | 0 <= i < |cells|
        ensures cells[i].pos in LaidSet(shape)
      {
      }
    }

    /** Changing only neighbour fields keeps the cells blank. */
    twostate lemma BlankKept()
      requires old(Blank()) && unchanged(cells`links, cells`weight, cells`inSolution)
      ensures Blank()
    {
    }

    /** Changing only neighbour fields keeps the link sets, weights and marks mirrored. */
    twostate lemma MirrorsKept()
      requires old(LinksMirrored() && WeightsMirrored() && MarksMirrored())
      requires unchanged(this`links, this`weights, this`marked, cells`links, cells`weight, cells`inSolution)
      ensures LinksMirrored() && WeightsMirrored() && MarksMirrored()
      ensures links == old(links) && weights == old(weights) && marked == old(marked)
    {
    }

    /** Changing only link sets keeps the neighbour fields, weights and marks mirrored. */
    twostate lemma OthersKept()
      requires old(Wired() && WeightsMirrored() && MarksMirrored())
      requires unchanged(this`weights, this`marked, cells`adjacency, cells`weight, cells`inSolution)
      ensures Wired() && WeightsMirrored() && MarksMirrored()
    {
    }

    /** The cell half of `link`: the cell at `a` gains `b`, the cell at `b` gains `a`, and no other cell changes. */
    method LinkCells(a: Position, b: Position)
      requires Layout() && Topology.Contains(shape, a) && Topology.Contains(shape, b)
      modifies cells`links
      ensures forall i :: 0 <= i < |cells| ==>
        cells[i].links == old(cells[i].links) + (if cells[i].pos == a then {b} else {}) + (if cells[i].pos == b then {a} else {})
    {
      IndexFormula(a);
      IndexFormula(b);
      var ca := Get(a).value;
      ca.Link(b);
      var cb := Get(b).value;
      cb.Link(a);
    }

    /** The cell half of `unlink`: the cell at `a` loses `b`, the cell at `b` loses `a`, and no other cell changes. */
    method UnlinkCells(a: Position, b: Position)
      requires Layout() && Topology.Contains(shape, a) && Topology.Contains(shape, b)
      modifies cells`links
      ensures forall i :: 0 <= i < |cells| ==>
        cells[i].links == old(cells[i].links) - (if cells[i].pos == a then {b} else {}) - (if cells[i].pos == b then {a} else {})
    {
      IndexFormula(a);
      IndexFormula(b);
      var ca := Get(a).value;
      ca.Unlink(b);
      var cb := Get(b).value;
      cb.Unlink(a);
    }

    /** `link`: joins `a` and `b` in both directions and changes no other cell; both must be contained. */
    method Link(a: Position, b: Position)
      requires Valid() && Topology.Contains(shape, a) && Topology.Contains(shape, b)
      modifies this`links, cells`links
      ensures Valid()
      ensures links == AddEdge(old(links), a, b)
    {
      ContainedIsLaid(shape, a);
      ContainedIsLaid(shape, b);
      ghost var m := links;
      assert a in m && b in m;
      LinkCells(a, b);
      links := AddEdge(m, a, b);
      AddEdgeKeepsSymmetric(m, a, b);
      forall i | 0 <= i < |cells|
        ensures links[cells[i].pos] == cells[i].links
      {
      }
      OthersKept();
    }

    /** `unlink`: separates `a` and `b` in both directions and changes no other cell; both must be contained. */
    method Unlink(a: Position, b: Position)
      requires Valid() && Topology.Contains(shape, a) && Topology.Contains(shape, b)
      modifies this`links, cells`links
      ensures Valid()
      ensures links == RemoveEdge(old(links), a, b)
    {
      ContainedIsLaid(shape, a);
      ContainedIsLaid(shape, b);
      ghost var m := links;
      assert a in m && b in m;
      UnlinkCells(a, b);
      links := RemoveEdge(m, a, b);
      RemoveEdgeKeepsSymmetric(m, a, b);
      forall i | 0 <= i < |cells|
        ensures links[cells[i].pos] == cells[i].links
      {
      }
      OthersKept();
    }

    /** `get(p).unwrap().weight()`: the weight of the contained cell at `p`. */
    function WeightOf(p: Position): (w: nat)
      reads this`weights, cells`weight
      requires WeightsMirrored() && Topology.Contains(shape, p)
      ensures p in weights && w == weights[p]
    {
      ContainedIsLaid(shape, p);
      Get(p).value.weight
    }

    /** Changing only weights keeps the neighbour fields, link sets and marks mirrored. */
    twostate lemma WeightsOnlyKept()
      requires old(Wired() && LinksMirrored() && MarksMirrored())
      requires unchanged(this`links, this`marked, cells`adjacency, cells`links, cells`inSolution)
      ensures Wired() && LinksMirrored() && MarksMirrored()
    {
    }

    /** Changing only marks keeps the neighbour fields, link sets and weights mirrored. */
    twostate lemma MarksOnlyKept()
      requires old(Wired() && LinksMirrored() && WeightsMirrored())
      requires unchanged(this`links, this`weights, cells`adjacency, cells`links, cells`weight)
      ensures Wired() && LinksMirrored() && WeightsMirrored()
    {
    }

    /** `get_mut(p)` then `update_weight(w)`: the cell at `p` takes weight `w`; no other cell changes. */
    method UpdateWeightAt(p: Position, w: nat)
      requires Valid() && Topology.Contains(shape, p)
      modifies this`weights, cells`weight
      ensures Valid()
      ensures weights == old(weights)[p := w]
    {
      ContainedIsLaid(shape, p);
      var cell := Get(p).value;
      cell.UpdateWeight(w);
      assert forall i :: 0 <= i < |cells| && cells[i].pos != p ==> cells[i] != cell;
      weights := weights[p := w];
      WeightsOnlyKept();
    }

    /** `get_mut(p)` then `mark_in_solution()`: the cell at `p` is marked; no other cell changes. */
    method MarkAt(p: Position)
      requires Valid() && Topology.Contains(shape, p)
      modifies this`marked, cells`inSolution
      ensures Valid()
      ensures marked == old(marked) + {p}
    {
      ContainedIsLaid(shape, p);
      var cell := Get(p).value;
      cell.MarkInSolution();
      assert forall i :: 0 <= i < |cells| && cells[i].pos != p ==> cells[i] != cell;
      marked := marked + {p};
      MarksOnlyKept();
    }
  }
}
