/** `Grid::to_string` of `data/grid.rs`: the ASCII picture of a rectangular maze. */
module Render {
  import opened Pos
  import opened Opt
  import opened Topology
  import opened LinkGraph
  import opened Cells
  import opened Grids
  import opened Ascii
  import Text

  /** `p`'s link set holds `q` (a position without a cell has no links). */
  predicate Linked(m: Links, p: Position, q: Position)
  {
    p in m && q in m[p]
  }

  /** The label of every cell: its weight in decimal. */
  function Captions(w: map<Position, nat>): (r: map<Position, string>)
    ensures r.Keys == w.Keys
  {
    map p | p in w :: Text.Decimal(w[p])
  }

  /** The label of the cell at `p` (empty for a position without a cell). */
  function CaptionAt(captions: map<Position, string>, p: Position): string
  {
    if p in captions then captions[p] else ""
  }

  /**
   * What `to_string` shows of cell `(row, col)`: its label, whether it is linked to the
   * cell east of it (never for the last column) and to the cell south of it (never for
   * the last row).
   */
  function TileOf(m: Links, captions: map<Position, string>, width: nat, height: nat, row: nat, col: nat): Tile
  {
    var p := Position(row, col);
    Tile(CaptionAt(captions, p),
         col + 1 < width && Linked(m, p, Position(row, col + 1)),
         row + 1 < height && Linked(m, p, Position(row + 1, col)))
  }

  function RowOf(m: Links, captions: map<Position, string>, width: nat, height: nat, row: nat): seq<Tile>
  {
    seq(width, col requires 0 <= col => TileOf(m, captions, width, height, row, col))
  }

  /** The tiles of a `width` x `height` grid, row by row. */
  function Picture(m: Links, captions: map<Position, string>, width: nat, height: nat): seq<seq<Tile>>
  {
    seq(height, row requires 0 <= row => RowOf(m, captions, width, height, row))
  }

  /** One pass of `to_string`'s inner loop: the label field, the east wall and the floor of cell `(row, col)`. */
  method CellPieces(g: MazeGrid, row: nat, col: nat, labels: bool) returns (field: string, wall: string, floor: string)
    requires g.LinksMirrored() && g.WeightsMirrored() && g.shape.Rect? && row < g.shape.height && col < g.shape.width
    ensures var t := TileOf(g.links, Captions(g.weights), g.shape.width, g.shape.height, row, col);
      field == Field(t, labels) && wall == Wall(t) && floor == Floor(t)
  {
    var width, height := g.shape.width, g.shape.height;
    var p := Position(row, col);
    var cell := g.Get(p).value;
    ContainedIsLaid(g.shape, p);
    assert cell.links == g.links[p] && cell.weight == g.weights[p];
    assert CaptionAt(Captions(g.weights), p) == cell.Label();
    if labels {
      field := Text.Center(cell.Label(), 3);
    } else {
      field := "   ";
    }
    if col < width - 1 {
      var east := g.Get(Position(row, col + 1)).value;
      if cell.IsLinked(east) {
        wall := " ";
      } else {
        wall := "|";
      }
    } else {
      wall := "|";
    }
    if row < height - 1 {
      var south := g.Get(Position(row + 1, col)).value;
      if cell.IsLinked(south) {
        floor := "   +";
      } else {
        floor := "---+";
      }
    } else {
      floor := "---+";
    }
  }

  /** The two lines of row `row`, built cell by cell as the inner loop of `to_string` does. */
  method RowLines(g: MazeGrid, row: nat, labels: bool) returns (top: string, bot: string)
    requires g.LinksMirrored() && g.WeightsMirrored() && g.shape.Rect? && row < g.shape.height
    ensures top == TopLine(RowOf(g.links, Captions(g.weights), g.shape.width, g.shape.height, row), labels)
    ensures bot == BotLine(RowOf(g.links, Captions(g.weights), g.shape.width, g.shape.height, row))
  {
    ghost var tiles := RowOf(g.links, Captions(g.weights), g.shape.width, g.shape.height, row);
    top := "|";
    bot := "+";
    for col := 0 to g.shape.width
      invariant top == TopLine(tiles[..col], labels)
      invariant bot == BotLine(tiles[..col])
    {
      var field, wall, floor := CellPieces(g, row, col, labels);
      assert tiles[col] == TileOf(g.links, Captions(g.weights), g.shape.width, g.shape.height, row, col);
      LinesSnoc(tiles, col, labels);
      top := top + field + wall;
      bot := bot + floor;
    }
    assert |tiles| == g.shape.width;
    assert tiles[..|tiles|] == tiles;
  }

  /** What `PolarGrid::to_string` returns, whatever the grid and the flag. */
  const PolarText: string := "to_string is meaningless for polar grids"

  /**
   * `to_string(display_labels)`: for a rectangular grid the picture of its links and
   * weights; a polar grid has no picture and answers with a fixed sentence.
   */
  method ToString(g: MazeGrid, labels: bool) returns (output: string)
    requires g.Valid()
    ensures g.shape.Rect? ==>
      output == Render(g.shape.width, Picture(g.links, Captions(g.weights), g.shape.width, g.shape.height), labels)
    ensures g.shape.Polar? ==> output == PolarText
  {
    if g.shape.Polar? {
      return PolarText;
    }
    output := RectString(g, labels);
  }

  /**
   * `Grid::to_string(display_labels)`: the header, then each row's top line (labels and
   * east walls) and bottom line (floors), each line ending in a newline.
   */
  method RectString(g: MazeGrid, labels: bool) returns (output: string)
    requires g.Valid() && g.shape.Rect?
    ensures output == Render(g.shape.width, Picture(g.links, Captions(g.weights), g.shape.width, g.shape.height), labels)
  {
    var width, height := g.shape.width, g.shape.height;
    ghost var rows := Picture(g.links, Captions(g.weights), width, height);
    output := Header(width);
    output := output + "\n";
    RenderNoRows(width, rows, labels);
    for row := 0 to height
      invariant output == Render(width, rows[..row], labels)
    {
      var top, bot := RowLines(g, row, labels);
      top := top + "\n";
      bot := bot + "\n";
      RenderSnoc(width, rows, row, labels);
      output := output + top;
      output := output + bot;
    }
    assert |rows| == height;
    assert rows[..|rows|] == rows;
  }

  /**
   * The weights' labels hold no newline, and a label fits the three columns of its
   * field exactly when the weight is below 1000.
   */
  lemma DecimalCaptions(w: map<Position, nat>)
    ensures forall p :: p in w ==> '\n' !in Captions(w)[p] && (|Captions(w)[p]| <= 3 <==> w[p] < 1000)
  {
    forall p | p in w
      ensures '\n' !in Captions(w)[p] && (|Captions(w)[p]| <= 3 <==> w[p] < 1000)
    {
      var digits := Text.Decimal(w[p]);
      assert forall i :: 0 <= i < |digits| ==> Text.IsDigit(digits[i]);
      Text.DecimalWidth(w[p]);
      if w[p] >= 1000 {
        Text.DecimalWidth(w[p] / 10);
      }
    }
  }

  /**
   * The picture is `2*height + 1` newline-terminated lines (when no label holds a
   * newline), and the first is the header: `width + 1` plus signs with three dashes
   * between each two.
   */
  lemma PictureLines(m: Links, captions: map<Position, string>, width: nat, height: nat, labels: bool)
    requires forall p :: p in captions ==> '\n' !in captions[p]
    ensures var rows := Picture(m, captions, width, height);
      && Occurrences(Render(width, rows, labels), '\n') == 2 * height + 1
      && |Lines(width, rows, labels)| == 2 * height + 1
      && var header := Lines(width, rows, labels)[0];
      && |header| == 4 * width + 1
      && forall i :: 0 <= i < |header| ==> header[i] == (if i % 4 == 0 then '+' else '-')
  {
    var rows: seq<seq<Tile>> := Picture(m, captions, width, height);
    forall r, c | 0 <= r < |rows| && 0 <= c < |rows[r]|
      ensures '\n' !in rows[r][c].caption
    {
      assert rows[r][c] == TileOf(m, captions, width, height, r, c);
    }
    LineCount(width, rows, labels);
    LinesLayout(width, rows, labels);
    HeaderShape(width);
  }

  /**
   * In row `r`'s top line (with labels off, or every label at most three characters)
   * cell `c` shows its label centred, or three blanks, in columns `4c+1 .. 4c+3`;
   * column `4c+4` is a blank exactly when the cell is linked to its east neighbour, and
   * `|` otherwise, which includes the last column.
   */
  lemma TopLineShows(m: Links, captions: map<Position, string>, width: nat, height: nat, labels: bool, r: nat, c: nat)
    requires r < height && c < width
    requires labels ==> forall p :: p in captions ==> |captions[p]| <= 3
    ensures |Lines(width, Picture(m, captions, width, height), labels)| == 2 * height + 1
    ensures var p := Position(r, c);
      var line := Lines(width, Picture(m, captions, width, height), labels)[2 * r + 1];
      && |line| == 4 * width + 1 && line[0] == '|'
      && line[4 * c + 1..4 * c + 4] == (if labels then Text.Center(CaptionAt(captions, p), 3) else "   ")
      && line[4 * c + 4] == (if c + 1 < width && Linked(m, p, Position(r, c + 1)) then ' ' else '|')
  {
    var rows: seq<seq<Tile>> := Picture(m, captions, width, height);
    var ts := rows[r];
    forall k | 0 <= k < |ts|
      ensures ts[k] == TileOf(m, captions, width, height, r, k)
      ensures labels ==> |ts[k].caption| <= 3
    {
    }
    LinesLayout(width, rows, labels);
    TopLineColumns(ts, labels);
    var line := Lines(width, rows, labels)[2 * r + 1];
    assert line == TopLine(ts, labels);
    assert line[4 * c + 1..4 * c + 4] == Field(ts[c], labels);
    assert ts[c].caption == CaptionAt(captions, Position(r, c));
  }

  /**
   * In row `r`'s bottom line the floor of cell `c`, columns `4c+1 .. 4c+4`, is `"   +"`
   * exactly when the cell is linked to its south neighbour, and `"---+"` otherwise, which
   * includes the last row.
   */
  lemma BotLineShows(m: Links, captions: map<Position, string>, width: nat, height: nat, labels: bool, r: nat, c: nat)
    requires r < height && c < width
    ensures |Lines(width, Picture(m, captions, width, height), labels)| == 2 * height + 1
    ensures var p := Position(r, c);
      var line := Lines(width, Picture(m, captions, width, height), labels)[2 * r + 2];
      && |line| == 4 * width + 1 && line[0] == '+'
      && line[4 * c + 1..4 * c + 5] == (if r + 1 < height && Linked(m, p, Position(r + 1, c)) then "   +" else "---+")
  {
    var rows: seq<seq<Tile>> := Picture(m, captions, width, height);
    LinesLayout(width, rows, labels);
    BotLineColumns(rows[r]);
    assert rows[r][c] == TileOf(m, captions, width, height, r, c);
  }

  /** The top line of a row of two cells. */
  lemma PairTop(ts: seq<Tile>, labels: bool)
    requires |ts| == 2
    ensures TopLine(ts, labels) == "|" + Field(ts[0], labels) + Wall(ts[0]) + Field(ts[1], labels) + Wall(ts[1])
  {
    assert ts[..0] == [];
    assert TopLine(ts[..0], labels) == "|";
    LinesSnoc(ts, 0, labels);
    LinesSnoc(ts, 1, labels);
    assert ts[..2] == ts;
  }

  /** The bottom line of a row of two cells. */
  lemma PairBot(ts: seq<Tile>)
    requires |ts| == 2
    ensures BotLine(ts) == "+" + Floor(ts[0]) + Floor(ts[1])
  {
    assert ts[..0] == [];
    assert BotLine(ts[..0]) == "+";
    LinesSnoc(ts, 0, false);
    LinesSnoc(ts, 1, false);
    assert ts[..2] == ts;
  }

  /** The lines of a picture of three rows. */
  lemma ThreeRows(width: nat, rows: seq<seq<Tile>>, labels: bool)
    requires |rows| == 3
    ensures Lines(width, rows, labels) ==
      [Header(width), TopLine(rows[0], labels), BotLine(rows[0]), TopLine(rows[1], labels), BotLine(rows[1]),
       TopLine(rows[2], labels), BotLine(rows[2])]
  {
    LinesLayout(width, rows, labels);
    var lines := Lines(width, rows, labels);
    assert lines[1] == TopLine(rows[0], labels) && lines[2] == BotLine(rows[0]);
    assert lines[3] == TopLine(rows[1], labels) && lines[4] == BotLine(rows[1]);
    assert lines[5] == TopLine(rows[2], labels) && lines[6] == BotLine(rows[2]);
  }

  /**
   * The 2 x 3 grid in which (0,0)-(0,1), (1,0)-(2,0) and (2,0)-(2,1) are linked and
   * (0,1), (1,1) and (2,0) weigh 13, 2 and 456.
   */
  const SampleLinks: Links := map[
    Position(0, 0) := {Position(0, 1)}, Position(0, 1) := {Position(0, 0)},
    Position(1, 0) := {Position(2, 0)}, Position(1, 1) := {},
    Position(2, 0) := {Position(1, 0), Position(2, 1)}, Position(2, 1) := {Position(2, 0)}]
  const SampleWeights: map<Position, nat> := map[
    Position(0, 0) := 0, Position(0, 1) := 13, Position(1, 0) := 0, Position(1, 1) := 2,
    Position(2, 0) := 456, Position(2, 1) := 0]

  const SampleCaptions: map<Position, string> := map[
    Position(0, 0) := "0", Position(0, 1) := "13", Position(1, 0) := "0", Position(1, 1) := "2",
    Position(2, 0) := "456", Position(2, 1) := "0"]

  lemma SampleLabels()
    ensures Captions(SampleWeights) == SampleCaptions
  {
    assert Text.Decimal(13) == "13" && Text.Decimal(456) == "456";
  }

  lemma SampleTiles()
    ensures Picture(SampleLinks, SampleCaptions, 2, 3) == [
      [Tile("0", true, false), Tile("13", false, false)],
      [Tile("0", false, true), Tile("2", false, false)],
      [Tile("456", true, false), Tile("0", false, false)]]
  {
    var rows := Picture(SampleLinks, SampleCaptions, 2, 3);
    assert rows[0] == [Tile("0", true, false), Tile("13", false, false)];
    assert rows[1] == [Tile("0", false, true), Tile("2", false, false)];
    assert rows[2] == [Tile("456", true, false), Tile("0", false, false)];
  }

  lemma SampleFirstRow()
    ensures TopLine([Tile("0", true, false), Tile("13", false, false)], true) == "| 0  13 |"
    ensures TopLine([Tile("0", true, false), Tile("13", false, false)], false) == "|       |"
    ensures BotLine([Tile("0", true, false), Tile("13", false, false)]) == "+---+---+"
  {
    PairTop([Tile("0", true, false), Tile("13", false, false)], true);
    PairTop([Tile("0", true, false), Tile("13", false, false)], false);
    PairBot([Tile("0", true, false), Tile("13", false, false)]);
  }

  lemma SampleSecondRow()
    ensures TopLine([Tile("0", false, true), Tile("2", false, false)], true) == "| 0 | 2 |"
    ensures TopLine([Tile("0", false, true), Tile("2", false, false)], false) == "|   |   |"
    ensures BotLine([Tile("0", false, true), Tile("2", false, false)]) == "+   +---+"
  {
    PairTop([Tile("0", false, true), Tile("2", false, false)], true);
    PairTop([Tile("0", false, true), Tile("2", false, false)], false);
    PairBot([Tile("0", false, true), Tile("2", false, false)]);
  }

  lemma SampleThirdRow()
    ensures TopLine([Tile("456", true, false), Tile("0", false, false)], true) == "|456  0 |"
    ensures TopLine([Tile("456", true, false), Tile("0", false, false)], false) == "|       |"
    ensures BotLine([Tile("456", true, false), Tile("0", false, false)]) == "+---+---+"
  {
    PairTop([Tile("456", true, false), Tile("0", false, false)], true);
    PairTop([Tile("456", true, false), Tile("0", false, false)], false);
    PairBot([Tile("456", true, false), Tile("0", false, false)]);
  }

  /** The lines `to_string` draws of the sample grid, with labels and without. */
  lemma SamplePicture()
    ensures Lines(2, Picture(SampleLinks, Captions(SampleWeights), 2, 3), true) ==
      ["+---+---+", "| 0  13 |", "+---+---+", "| 0 | 2 |", "+   +---+", "|456  0 |", "+---+---+"]
    ensures Lines(2, Picture(SampleLinks, Captions(SampleWeights), 2, 3), false) ==
      ["+---+---+", "|       |", "+---+---+", "|   |   |", "+   +---+", "|       |", "+---+---+"]
  {
    SampleLabels();
    SampleTiles();
    SampleFirstRow();
    SampleSecondRow();
    SampleThirdRow();
    HeaderShape(2);
    assert Header(2) == "+---+---+";
    var rows := Picture(SampleLinks, Captions(SampleWeights), 2, 3);
    ThreeRows(2, rows, true);
    ThreeRows(2, rows, false);
  }
}
