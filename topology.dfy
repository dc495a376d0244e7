/**
 * The geometry of the two grid shapes, as pure functions: which positions exist,
 * where each one is stored in the row-major cell vector, and who its neighbours are.
 */
module Topology {
  import opened Pos
  import opened Opt

  /**
   * A rectangular `Grid` (width x height) or a `PolarGrid` (`rows` rings,
   * `columnCounts[r]` cells in ring r).
   */
  datatype Shape =
    | Rect(width: nat, height: nat)
    | Polar(rows: nat, columnCounts: seq<nat>)

  /**
   * The ring-size table of a polar grid: the centre ring holds one cell and every
   * ring holds a positive whole multiple of the cells of the ring inside it. The rounded
   * ratio gives the first ring out six cells, so no ring past the centre has a single cell
   * (which would be its own clockwise neighbour; see `OuterRingsShared`).
   * `PolarGrid::new(0)` still lays out the centre cell, so there is always one ring.
   */
  predicate WellFormed(s: Shape)
  {
    s.Polar? ==>
      && |s.columnCounts| == (if s.rows == 0 then 1 else s.rows)
      && s.columnCounts[0] == 1
      && (forall r :: 0 <= r < |s.columnCounts| ==> s.columnCounts[r] > 0)
      && (|s.columnCounts| > 1 ==> s.columnCounts[1] > 1)
      && (forall r :: 1 <= r < |s.columnCounts| ==> Divides(s.columnCounts, r))
  }

  /** Ring `r - 1`'s size divides ring `r`'s. */
  predicate Divides(counts: seq<nat>, r: nat)
    requires 1 <= r < |counts| && counts[r - 1] > 0
  {
    counts[r] % counts[r - 1] == 0
  }

  /** Rows that have cells laid out. */
  function RowCount(s: Shape): nat
  {
    match s
    case Rect(_, height) => height
    case Polar(_, counts) => |counts|
  }

  function ColumnCount(s: Shape, r: nat): nat
    requires r < RowCount(s)
  {
    match s
    case Rect(width, _) => width
    case Polar(_, counts) => counts[r]
  }

  /** Index in the cell vector of the first cell of row `r`. */
  function Offset(s: Shape, r: nat): nat
    requires r <= RowCount(s)
  {
    if r == 0 then 0 else Offset(s, r - 1) + ColumnCount(s, r - 1)
  }

  /** In a rectangular grid row `r` starts at `r*width`. */
  lemma {:induction false} RectOffset(s: Shape, r: nat)
    requires s.Rect? && r <= s.height
    ensures Offset(s, r) == r * s.width
  {
    if r > 0 {
      RectOffset(s, r - 1);
      assert r * s.width == (r - 1) * s.width + s.width;
    }
  }

  /** The number of cells the constructor creates. */
  function CellCount(s: Shape): nat
  {
    Offset(s, RowCount(s))
  }

  /** A cell is laid out at `p`. */
  predicate Laid(s: Shape, p: Position)
  {
    p.row < RowCount(s) && p.col < ColumnCount(s, p.row)
  }

  /** Every laid-out position. */
  function LaidSet(s: Shape): (r: set<Position>)
    ensures forall p :: p in r <==> Laid(s, p)
  {
    set row: nat, col: nat | row < RowCount(s) && col < ColumnCount(s, row) :: Position(row, col)
  }

  /** `contains`: rectangular `row < height && col < width`; polar `row < rows && col < column_counts[row]`. */
  predicate Contains(s: Shape, p: Position)
    requires WellFormed(s)
  {
    match s
    case Rect(width, height) => p.row < height && p.col < width
    case Polar(rows, counts) => p.row < rows && p.col < counts[p.row]
  }

  /** The lookup index `col + row*width` (rectangular) or `col + row_offsets[row]` (polar). */
  function Index(s: Shape, p: Position): nat
    requires Laid(s, p)
  {
    p.col + Offset(s, p.row)
  }

  /** A polar ring holds `Ratio` cells for every cell of the ring inside it. */
  function Ratio(s: Shape, r: nat): (k: nat)
    requires WellFormed(s) && s.Polar? && 1 <= r < |s.columnCounts|
    ensures k >= 1 && s.columnCounts[r] == k * s.columnCounts[r - 1]
  {
    assert Divides(s.columnCounts, r);
    var k := s.columnCounts[r] / s.columnCounts[r - 1];
    assert s.columnCounts[r] == k * s.columnCounts[r - 1];
    k
  }

  // ---------------------------------------------------------------------------
  // Layout lemmas

  lemma OffsetStep(s: Shape, r: nat)
    requires r < RowCount(s)
    ensures Offset(s, r + 1) == Offset(s, r) + ColumnCount(s, r)
  {
  }

  /** Every row starts after all the cells of the rows before it. */
  lemma {:induction false} OffsetMonotone(s: Shape, r1: nat, r2: nat)
    requires r1 <= r2 <= RowCount(s)
    ensures Offset(s, r1) + (if r1 < r2 then ColumnCount(s, r1) else 0) <= Offset(s, r2)
    decreases r2 - r1
  {
    if r1 < r2 {
      OffsetStep(s, r1);
      OffsetMonotone(s, r1 + 1, r2);
    }
  }

  /** Every laid-out position has a slot in the cell vector. */
  lemma IndexInRange(s: Shape, p: Position)
    requires Laid(s, p)
    ensures Offset(s, p.row) <= Index(s, p) < Offset(s, p.row + 1) <= CellCount(s)
  {
    OffsetStep(s, p.row);
    OffsetMonotone(s, p.row + 1, RowCount(s));
  }

  /** Distinct positions have distinct slots. */
  lemma IndexInjective(s: Shape, p: Position, q: Position)
    requires Laid(s, p) && Laid(s, q) && Index(s, p) == Index(s, q)
    ensures p == q
  {
    IndexInRange(s, p);
    IndexInRange(s, q);
    if p.row < q.row {
      OffsetMonotone(s, p.row + 1, q.row);
    } else if q.row < p.row {
      OffsetMonotone(s, q.row + 1, p.row);
    }
  }

  /** Only the centre cell of a zero-ring polar grid is laid out but not contained. */
  lemma ContainedIsLaid(s: Shape, p: Position)
    requires WellFormed(s)
    ensures Contains(s, p) ==> Laid(s, p)
    ensures Laid(s, p) && !Contains(s, p) ==> s.Polar? && s.rows == 0 && p == Position(0, 0)
  {
  }

  // ---------------------------------------------------------------------------
  // Adjacency

  /** The neighbour fields of a `Cell` (compass) or of a `PolarCell` (ring). */
  datatype Adjacency =
    | Compass(north: Option<Position>, south: Option<Position>, east: Option<Position>, west: Option<Position>)
    | Ring(ccw: Option<Position>, cw: Option<Position>, inward: Option<Position>, outward: seq<Position>)

  /** `neighbors()`: the present ones among north, south, east, west (or ccw, cw, inward, outward), in that order. */
  function NeighborsOf(a: Adjacency): (r: seq<Position>)
    ensures a.Compass? ==>
      forall q :: q in r <==> Some(q) in {a.north, a.south, a.east, a.west}
    ensures a.Ring? ==>
      forall q :: q in r <==> Some(q) in {a.ccw, a.cw, a.inward} || q in a.outward
  {
    match a
    case Compass(n, s, e, w) => ToSeq(n) + ToSeq(s) + ToSeq(e) + ToSeq(w)
    case Ring(ccw, cw, inward, outward) => ToSeq(ccw) + ToSeq(cw) + ToSeq(inward) + outward
  }

  /** The compass neighbours `Grid::new` assigns: each present exactly when it lies inside the grid. */
  function CompassOf(width: nat, height: nat, p: Position): Adjacency
  {
    Compass(
      if p.row > 0 then Some(Position(p.row - 1, p.col)) else None,
      if p.row + 1 < height then Some(Position(p.row + 1, p.col)) else None,
      if p.col + 1 < width then Some(Position(p.row, p.col + 1)) else None,
      if p.col > 0 then Some(Position(p.row, p.col - 1)) else None)
  }

  /** The counter-clockwise neighbour, wrapping from column 0 to the last column. */
  function Ccw(s: Shape, p: Position): Position
    requires WellFormed(s) && s.Polar? && Laid(s, p)
  {
    Position(p.row, if p.col == 0 then s.columnCounts[p.row] - 1 else p.col - 1)
  }

  /** The clockwise neighbour, wrapping from the last column to column 0. */
  function Cw(s: Shape, p: Position): Position
    requires WellFormed(s) && s.Polar? && Laid(s, p)
  {
    Position(p.row, if p.col == s.columnCounts[p.row] - 1 then 0 else p.col + 1)
  }

  /** The parent in the next ring in: column `col / ratio`. */
  function Inward(s: Shape, p: Position): Position
    requires WellFormed(s) && s.Polar? && Laid(s, p) && p.row >= 1
  {
    Position(p.row - 1, p.col / Ratio(s, p.row))
  }

  /** The `k` cells of ring `row` from column `base` on, in column order. */
  function Block(row: nat, base: nat, k: nat): (r: seq<Position>)
    ensures |r| == k
    ensures forall j :: 0 <= j < k ==> r[j] == Position(row, base + j)
    decreases k
  {
    if k == 0 then [] else Block(row, base, k - 1) + [Position(row, base + k - 1)]
  }

  /** The children in the next ring out, in column order. */
  function Outward(s: Shape, p: Position): seq<Position>
    requires WellFormed(s) && s.Polar? && Laid(s, p)
  {
    if p.row + 1 < |s.columnCounts| then
      var k := Ratio(s, p.row + 1);
      Block(p.row + 1, p.col * k, k)
    else []
  }

  /** The neighbour fields every cell holds once the grid is built. */
  function AdjacencyOf(s: Shape, p: Position): Adjacency
    requires WellFormed(s) && Laid(s, p)
  {
    match s
    case Rect(width, height) => CompassOf(width, height, p)
    case Polar(_, _) =>
      if p.row == 0 then Ring(None, None, None, Outward(s, p))
      else Ring(Some(Ccw(s, p)), Some(Cw(s, p)), Some(Inward(s, p)), Outward(s, p))
  }

  /** `MazeGrid::neighbors`: the cell's neighbour list when the position is contained, empty otherwise. */
  function Neighbors(s: Shape, p: Position): seq<Position>
    requires WellFormed(s)
  {
    if Contains(s, p) then NeighborsOf(AdjacencyOf(s, p)) else []
  }

  /** `q` is a neighbour of `p`. */
  predicate Adjacent(s: Shape, p: Position, q: Position)
    requires WellFormed(s)
  {
    q in Neighbors(s, p)
  }

  // ---------------------------------------------------------------------------
  // Adjacency lemmas

  /** Multiplication by a natural number is monotone. */
  lemma {:induction false} MulMonotone(k: nat, x: nat, y: nat)
    ensures x <= y ==> x * k <= y * k
    decreases y
  {
    if x < y {
      MulMonotone(k, x, y - 1);
      assert y * k == (y - 1) * k + k;
    }
  }

  /** Quotient and remainder are unique. */
  lemma DivUnique(x: nat, k: nat, q: nat, r: nat)
    requires k >= 1 && r < k && x == q * k + r
    ensures x / k == q && x % k == r
  {
    var q0, r0 := x / k, x % k;
    assert x == q0 * k + r0;
    MulMonotone(k, q0 + 1, q);
    MulMonotone(k, q + 1, q0);
    assert (q0 + 1) * k == q0 * k + k;
    assert (q + 1) * k == q * k + k;
  }

  /** A column of a ring `k` times the size of the ring inside it has a parent column there. */
  lemma DivideByRatio(c: nat, k: nat, n: nat)
    requires k >= 1 && c < k * n
    ensures c / k < n
    ensures (c / k) * k + c % k == c && c % k < k
  {
    MulMonotone(k, n, c / k);
  }

  lemma ChildOfParent(a: nat, j: nat, k: nat)
    requires j < k
    ensures (a * k + j) / k == a && (a * k + j) % k == j
  {
    DivUnique(a * k + j, k, a, j);
  }

  /** A rectangular cell's neighbours are exactly the contained cells one step north, south, east or west. */
  lemma RectNeighborsExact(s: Shape, p: Position, q: Position)
    requires s.Rect? && Contains(s, p)
    ensures q in Neighbors(s, p) <==>
      Contains(s, q) &&
      ((q.row == p.row && (q.col == p.col + 1 || q.col + 1 == p.col)) ||
       (q.col == p.col && (q.row == p.row + 1 || q.row + 1 == p.row)))
  {
  }

  /** The `j`-th outward child of a contained cell is contained and has that cell as its parent. */
  lemma OutwardChild(s: Shape, p: Position, j: nat)
    requires WellFormed(s) && s.Polar? && Contains(s, p) && j < |Outward(s, p)|
    ensures Contains(s, Outward(s, p)[j])
    ensures Outward(s, p)[j].row >= 1 && Inward(s, Outward(s, p)[j]) == p
  {
    var k := Ratio(s, p.row + 1);
    var q := Outward(s, p)[j];
    assert q == Position(p.row + 1, p.col * k + j);
    MulMonotone(k, p.col + 1, s.columnCounts[p.row]);
    assert (p.col + 1) * k == p.col * k + k;
    assert q.col < s.columnCounts[q.row];
    ChildOfParent(p.col, j, k);
  }

  /** The parent of a contained cell is contained and lists the cell among its outward children. */
  lemma InwardParent(s: Shape, p: Position)
    requires WellFormed(s) && s.Polar? && Contains(s, p) && p.row >= 1
    ensures Contains(s, Inward(s, p))
    ensures p in Outward(s, Inward(s, p))
  {
    var k := Ratio(s, p.row);
    var q := Inward(s, p);
    DivideByRatio(p.col, k, s.columnCounts[p.row - 1]);
    assert Outward(s, q)[p.col % k] == Position(p.row, q.col * k + p.col % k);
  }

  /** Clockwise and counter-clockwise steps stay in the ring and undo each other. */
  lemma RingSteps(s: Shape, p: Position)
    requires WellFormed(s) && s.Polar? && Contains(s, p)
    ensures Contains(s, Cw(s, p)) && Contains(s, Ccw(s, p))
    ensures Ccw(s, Cw(s, p)) == p && Cw(s, Ccw(s, p)) == p
  {
  }

  /** Every listed neighbour lies inside the grid. */
  lemma NeighborsContained(s: Shape, p: Position, q: Position)
    requires WellFormed(s) && q in Neighbors(s, p)
    ensures Contains(s, q)
  {
    if s.Polar? {
      var a := AdjacencyOf(s, p);
      if q in a.outward {
        var j :| 0 <= j < |a.outward| && a.outward[j] == q;
        OutwardChild(s, p, j);
      } else if p.row >= 1 {
        InwardParent(s, p);
        RingSteps(s, p);
      }
    }
  }

  /** A contained polar cell's neighbours: ccw, cw and inward outside the centre, and its outward children. */
  lemma PolarNeighbors(s: Shape, p: Position, q: Position)
    requires WellFormed(s) && s.Polar? && Contains(s, p)
    ensures q in Neighbors(s, p) <==>
      (p.row >= 1 && (q == Ccw(s, p) || q == Cw(s, p) || q == Inward(s, p))) || q in Outward(s, p)
  {
  }

  /** The neighbour relation is symmetric in both shapes: wrap-around included, and inward/outward mirror each other. */
  lemma NeighborsSymmetric(s: Shape, p: Position, q: Position)
    requires WellFormed(s) && q in Neighbors(s, p)
    ensures p in Neighbors(s, q)
  {
    NeighborsContained(s, p, q);
    if s.Rect? {
      RectNeighborsExact(s, p, q);
      RectNeighborsExact(s, q, p);
    } else {
      PolarNeighbors(s, p, q);
      PolarNeighbors(s, q, p);
      if q in Outward(s, p) {
        var j :| 0 <= j < |Outward(s, p)| && Outward(s, p)[j] == q;
        OutwardChild(s, p, j);
      } else if p.row >= 1 && q == Inward(s, p) {
        InwardParent(s, p);
      } else {
        RingSteps(s, p);
      }
    }
  }

  /** Rings only grow outwards, so every ring past the centre holds more than one cell. */
  lemma {:induction false} OuterRingsShared(s: Shape, r: nat)
    requires WellFormed(s) && s.Polar? && 1 <= r < |s.columnCounts|
    ensures s.columnCounts[r] > 1
  {
    if r > 1 {
      OuterRingsShared(s, r - 1);
      var k := Ratio(s, r);
    }
  }

  /** No cell is its own neighbour. */
  lemma NotOwnNeighbor(s: Shape, p: Position)
    requires WellFormed(s)
    ensures p !in Neighbors(s, p)
  {
    if Contains(s, p) && s.Polar? {
      ContainedIsLaid(s, p);
      if p.row >= 1 {
        OuterRingsShared(s, p.row);
        assert Cw(s, p) != p && Ccw(s, p) != p;
      }
    }
  }

  /** Four rings sized 1, 6, 12, 24: the cell at ring 2, column 1 has five neighbours. */
  lemma FourRingExample()
    ensures WellFormed(Polar(4, [1, 6, 12, 24]))
    ensures Neighbors(Polar(4, [1, 6, 12, 24]), Position(2, 1)) ==
      [Position(2, 0), Position(2, 2), Position(1, 0), Position(3, 2), Position(3, 3)]
  {
    var s := Polar(4, [1, 6, 12, 24]);
    var p := Position(2, 1);
    assert WellFormed(s);
    assert Ratio(s, 2) == 2 && Ratio(s, 3) == 2;
    assert Inward(s, p) == Position(1, 0);
    assert Outward(s, p) == [Position(3, 2), Position(3, 3)];
    assert AdjacencyOf(s, p) == Ring(Some(Position(2, 0)), Some(Position(2, 2)), Some(Position(1, 0)), Outward(s, p));
  }
}
