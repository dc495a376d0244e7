/**
 * `data.rs`, the earlier revision of the rectangular grid: cells without neighbour fields
 * or solution flag, a signed 32-bit weight, and a grid API addressed by `(row, col)`.
 */
module Legacy {
  import opened Pos
  import opened Opt
  import opened Topology
  import opened LinkGraph
  import opened Ascii
  import opened Render
  import Text

  newtype i32 = x: int | -0x8000_0000 <= x < 0x8000_0000

  class Cell {
    const pos: Position
    var weight: i32
    /** A `BTreeSet` of the positions this cell is joined to. */
    var links: set<Position>

    /** `Cell::new(row, col)`: weight 0 and no links. */
    constructor (row: nat, col: nat)
      ensures pos == Position(row, col) && weight == 0 && links == {}
    {
      pos := Position(row, col);
      weight := 0;
      links := {};
    }

    /** `label`: the weight in decimal, with a minus sign when negative. */
    function Label(): (r: string)
      reads this`weight
      ensures |r| >= 1 && (forall k :: 1 <= k < |r| ==> Text.IsDigit(r[k])) && (r[0] != '-' ==> Text.IsDigit(r[0]))
      ensures Text.SignedValue(r) == weight as int
    {
      Text.SignedRoundTrip(weight as int);
      Text.SignedDecimal(weight as int)
    }

    /** `link`: adds `other`; linking twice changes nothing more. */
    method Link(other: Position)
      modifies this`links
      ensures links == old(links) + {other}
    {
      links := links + {other};
    }

    /** `unlink`: removes `other` only. */
    method Unlink(other: Position)
      modifies this`links
      ensures links == old(links) - {other}
    {
      links := links - {other};
    }

    /** `is_linked`: the other cell's position is in this cell's link set. */
    predicate IsLinked(other: Cell)
      reads this`links
    {
      other.pos in links
    }

    /** `PartialEq`: cells compare by position only. */
    predicate Equals(other: Cell)
    {
      pos == other.pos
    }
  }

  /** Equality ignores weight and links and is an equivalence. */
  lemma EqualsIsPositionEquivalence(a: Cell, b: Cell, c: Cell)
    ensures a.Equals(b) <==> a.pos == b.pos
    ensures a.Equals(a)
    ensures a.Equals(b) ==> b.Equals(a)
    ensures a.Equals(b) && b.Equals(c) ==> a.Equals(c)
  {
  }

  /** Cells `built[..]` sit at the slots their positions index, with weight 0 and no links. */
  ghost predicate Blank(s: Shape, built: seq<Cell>)
    reads built
  {
    forall i :: 0 <= i < |built| ==>
      && Laid(s, built[i].pos) && Index(s, built[i].pos) == i
      && built[i].weight == 0 && built[i].links == {}
  }

  class Grid {
    const width: nat
    const height: nat
    const cells: seq<Cell>
    /** The cells' link sets and weights, by position. */
    ghost var links: Links
    ghost var weights: map<Position, i32>

    ghost function Shape(): Shape
    {
      Rect(width, height)
    }

    /** `width * height` cells, each at the slot `col + row*width` its position names. */
    ghost predicate Layout()
    {
      && |cells| == CellCount(Shape())
      && forall i :: 0 <= i < |cells| ==> Laid(Shape(), cells[i].pos) && Index(Shape(), cells[i].pos) == i
    }

    /**
     * The ghost maps mirror the cells; links are symmetric (as `link` and `unlink` keep
     * them) and join cells of the grid.
     */
    ghost predicate Valid()
      reads this, cells
    {
      && Layout()
      && links.Keys == LaidSet(Shape()) && weights.Keys == LaidSet(Shape())
      && (forall i :: 0 <= i < |cells| ==> links[cells[i].pos] == cells[i].links && weights[cells[i].pos] == cells[i].weight)
      && Symmetric(links)
      && (forall p, q :: p in links && q in links[p] ==> Laid(Shape(), q))
    }

    /** `Grid::new(width, height)`: the cells row by row, each with weight 0 and no links. */
    constructor (width: nat, height: nat)
      ensures this.width == width && this.height == height && |cells| == width * height
      ensures Valid()
      ensures forall p :: p in links ==> links[p] == {}
      ensures forall p :: p in weights ==> weights[p] == 0
    {
      var s := Rect(width, height);
      var built: seq<Cell> := [];
      for row := 0 to height
        invariant |built| == Offset(s, row) && Blank(s, built)
      {
        for col := 0 to width
          invariant |built| == Offset(s, row) + col && Blank(s, built)
        {
          var c := new Cell(row, col);
          built := built + [c];
        }
        OffsetStep(s, row);
      }
      RectOffset(s, height);
      this.width := width;
      this.height := height;
      cells := built;
      links := map p | p in LaidSet(s) :: {};
      weights := map p | p in LaidSet(s) :: 0;
      new;
      forall i | 0 <= i < |cells|
        ensures cells[i].pos in LaidSet(s)
      {
      }
    }

    /** `contains(row, col)`: the position lies in the grid. */
    predicate Contains(row: nat, col: nat)
    {
      row < height && col < width
    }

    /** The cell at a laid-out position sits at its index, and no other cell has that position. */
    lemma SlotOf(p: Position)
      requires Layout() && Laid(Shape(), p)
      ensures Index(Shape(), p) < |cells| && cells[Index(Shape(), p)].pos == p
      ensures forall i :: 0 <= i < |cells| && cells[i].pos == p ==> i == Index(Shape(), p)
    {
      IndexInRange(Shape(), p);
      IndexInjective(Shape(), p, cells[Index(Shape(), p)].pos);
    }

    /** `get` and `get_mut`: the cell at `(row, col)` exactly when it is contained. */
    function Get(row: nat, col: nat): (r: Option<Cell>)
      requires Layout()
      ensures r.Some? <==> row < height && col < width
      ensures r.Some? ==>
        && r.value.pos == Position(row, col)
        && Index(Shape(), r.value.pos) < |cells| && r.value == cells[Index(Shape(), r.value.pos)]
    {
      if !Contains(row, col) then None
      else
        var p := Position(row, col);
        SlotOf(p);
        RectOffset(Shape(), row);
        var idx := col + row * width;
        if idx < |cells| then Some(cells[idx]) else None
    }

    /** `get_pos`: the queried position exactly when it is contained. */
    function GetPos(row: nat, col: nat): (r: Option<Position>)
      requires Layout()
      ensures r.Some? <==> row < height && col < width
      ensures r.Some? ==> r.value == Position(row, col)
    {
      match Get(row, col)
      case Some(cell) => Some(cell.pos)
      case None => None
    }

    /** The cell half of `link`: the cell at `a` gains `b`, the cell at `b` gains `a`, and no other cell changes. */
    method LinkCells(a: Position, b: Position)
      requires Layout() && Contains(a.row, a.col) && Contains(b.row, b.col)
      modifies cells`links
      ensures forall i :: 0 <= i < |cells| ==>
        cells[i].links == old(cells[i].links) + (if cells[i].pos == a then {b} else {}) + (if cells[i].pos == b then {a} else {})
    {
      SlotOf(a);
      SlotOf(b);
      var ca := Get(a.row, a.col).value;
      ca.Link(b);
      var cb := Get(b.row, b.col).value;
      cb.Link(a);
    }

    /** The cell half of `unlink`: the cell at `a` loses `b`, the cell at `b` loses `a`, and no other cell changes. */
    method UnlinkCells(a: Position, b: Position)
      requires Layout() && Contains(a.row, a.col) && Contains(b.row, b.col)
      modifies cells`links
      ensures forall i :: 0 <= i < |cells| ==>
        cells[i].links == old(cells[i].links) - (if cells[i].pos == a then {b} else {}) - (if cells[i].pos == b then {a} else {})
    {
      SlotOf(a);
      SlotOf(b);
      var ca := Get(a.row, a.col).value;
      ca.Unlink(b);
      var cb := Get(b.row, b.col).value;
      cb.Unlink(a);
    }

    /** `link(pos, other)`: joins the two cells in both directions; both must be in the grid. */
    method Link(a: Position, b: Position)
      requires Valid() && Contains(a.row, a.col) && Contains(b.row, b.col)
      modifies this`links, cells`links
      ensures Valid()
      ensures links == AddEdge(old(links), a, b)
    {
      ghost var m := links;
      assert a in m && b in m;
      LinkCells(a, b);
      links := AddEdge(m, a, b);
      AddEdgeKeepsSymmetric(m, a, b);
    }

    /** `unlink(pos, other)`: separates the two cells in both directions; both must be in the grid. */
    method Unlink(a: Position, b: Position)
      requires Valid() && Contains(a.row, a.col) && Contains(b.row, b.col)
      modifies this`links, cells`links
      ensures Valid()
      ensures links == RemoveEdge(old(links), a, b)
    {
      ghost var m := links;
      assert a in m && b in m;
      UnlinkCells(a, b);
      links := RemoveEdge(m, a, b);
      RemoveEdgeKeepsSymmetric(m, a, b);
    }
  }

  /** The label of every cell: its weight in signed decimal. */
  function SignedCaptions(w: map<Position, i32>): (r: map<Position, string>)
    ensures r.Keys == w.Keys
  {
    map p | p in w :: Text.SignedDecimal(w[p] as int)
  }

  /** A signed label holds no newline, so the picture of a legacy grid has `2*height + 1` lines too. */
  lemma SignedCaptionsPlain(w: map<Position, i32>)
    ensures forall p :: p in w ==> '\n' !in SignedCaptions(w)[p]
  {
    forall p | p in w
      ensures '\n' !in SignedCaptions(w)[p]
    {
      var r := Text.SignedDecimal(w[p] as int);
      assert forall k :: 0 <= k < |r| ==> r[k] == '-' || Text.IsDigit(r[k]);
    }
  }

  /** One pass of `to_string`'s inner loop: the label field, the east wall and the floor of cell `(row, col)`. */
  method CellPieces(g: Grid, row: nat, col: nat, labels: bool) returns (field: string, wall: string, floor: string)
    requires g.Valid() && row < g.height && col < g.width
    ensures var t := TileOf(g.links, SignedCaptions(g.weights), g.width, g.height, row, col);
      field == Field(t, labels) && wall == Wall(t) && floor == Floor(t)
  {
    var cell := g.Get(row, col).value;
    g.SlotOf(cell.pos);
    assert cell.links == g.links[cell.pos] && cell.weight == g.weights[cell.pos];
    assert CaptionAt(SignedCaptions(g.weights), cell.pos) == cell.Label();
    if labels {
      field := Text.Center(cell.Label(), 3);
    } else {
      field := "   ";
    }
    if col < g.width - 1 {
      var east := g.Get(row, col + 1).value;
      if cell.IsLinked(east) {
        wall := " ";
      } else {
        wall := "|";
      }
    } else {
      wall := "|";
    }
    if row < g.height - 1 {
      var south := g.Get(row + 1, col).value;
      if cell.IsLinked(south) {
        floor := "   +";
      } else {
        floor := "---+";
      }
    } else {
      floor := "---+";
    }
  }

  /** The two lines of row `row`, built cell by cell. */
  method RowLines(g: Grid, row: nat, labels: bool) returns (top: string, bot: string)
    requires g.Valid() && row < g.height
    ensures top == TopLine(RowOf(g.links, SignedCaptions(g.weights), g.width, g.height, row), labels)
    ensures bot == BotLine(RowOf(g.links, SignedCaptions(g.weights), g.width, g.height, row))
  {
    ghost var tiles := RowOf(g.links, SignedCaptions(g.weights), g.width, g.height, row);
    top := "|";
    bot := "+";
    for col := 0 to g.width
      invariant top == TopLine(tiles[..col], labels)
      invariant bot == BotLine(tiles[..col])
    {
      var field, wall, floor := CellPieces(g, row, col, labels);
      assert tiles[col] == TileOf(g.links, SignedCaptions(g.weights), g.width, g.height, row, col);
      LinesSnoc(tiles, col, labels);
      top := top + field + wall;
      bot := bot + floor;
    }
    assert |tiles| == g.width;
    assert tiles[..|tiles|] == tiles;
  }

  /**
   * `to_string(display_labels)` of `data.rs`: the same picture as the live grid's, with
   * signed labels.
   */
  method ToString(g: Grid, labels: bool) returns (output: string)
    requires g.Valid()
    ensures output == Ascii.Render(g.width, Picture(g.links, SignedCaptions(g.weights), g.width, g.height), labels)
  {
    ghost var rows := Picture(g.links, SignedCaptions(g.weights), g.width, g.height);
    output := Header(g.width);
    output := output + "\n";
    RenderNoRows(g.width, rows, labels);
    for row := 0 to g.height
      invariant output == Ascii.Render(g.width, rows[..row], labels)
    {
      var top, bot := RowLines(g, row, labels);
      top := top + "\n";
      bot := bot + "\n";
      RenderSnoc(g.width, rows, row, labels);
      output := output + top;
      output := output + bot;
    }
    assert |rows| == g.height;
    assert rows[..|rows|] == rows;
  }
}
