/**
 * The picture `to_string` draws of a rectangular grid, as pure functions of what it
 * shows of each cell, and the layout facts about that picture.
 */
module Ascii {
  import Text

  /** What the renderer shows of one cell: its caption (the label), and whether the wall east of it and the floor under it are open. */
  datatype Tile = Tile(caption: string, eastOpen: bool, southOpen: bool)

  /** `Itertools::join`: the parts with `sep` between each two neighbours. */
  function Join(parts: seq<string>, sep: string): string
  {
    if |parts| == 0 then ""
    else if |parts| == 1 then parts[0]
    else Join(parts[..|parts| - 1], sep) + sep + parts[|parts| - 1]
  }

  /** `iter::repeat("+").take(width + 1).join("---")` */
  function Header(width: nat): string
  {
    Join(seq(width + 1, _ => "+"), "---")
  }

  /** `{:^3}` of the label, or three blanks when labels are off. */
  function Field(t: Tile, labels: bool): string
  {
    if labels then Text.Center(t.caption, 3) else "   "
  }

  function Wall(t: Tile): string
  {
    if t.eastOpen then " " else "|"
  }

  function Floor(t: Tile): string
  {
    if t.southOpen then "   +" else "---+"
  }

  /** What one cell adds to the top line: its field, then the wall east of it. */
  function Piece(t: Tile, labels: bool): string
  {
    Field(t, labels) + Wall(t)
  }

  /** What `draw` makes of each cell of a row, left to right. */
  function Cells(ts: seq<Tile>, draw: Tile -> string): string
  {
    if ts == [] then "" else Cells(ts[..|ts| - 1], draw) + draw(ts[|ts| - 1])
  }

  /** The cells of one row in the top line. */
  function TopCells(ts: seq<Tile>, labels: bool): string
  {
    Cells(ts, t => Piece(t, labels))
  }

  /** The cells of one row in the bottom line: the floor under each. */
  function BotCells(ts: seq<Tile>): string
  {
    Cells(ts, Floor)
  }

  function TopLine(ts: seq<Tile>, labels: bool): string
  {
    "|" + TopCells(ts, labels)
  }

  function BotLine(ts: seq<Tile>): string
  {
    "+" + BotCells(ts)
  }

  /** One more cell extends both lines of a row by its own pieces. */
  lemma LinesSnoc(ts: seq<Tile>, k: nat, labels: bool)
    requires k < |ts|
    ensures TopLine(ts[..k + 1], labels) == TopLine(ts[..k], labels) + Field(ts[k], labels) + Wall(ts[k])
    ensures BotLine(ts[..k + 1]) == BotLine(ts[..k]) + Floor(ts[k])
  {
    assert ts[..k + 1][..k] == ts[..k];
  }

  /** The lines of the picture: the header, then a top and a bottom line per row. */
  function Lines(width: nat, rows: seq<seq<Tile>>, labels: bool): seq<string>
  {
    if rows == [] then [Header(width)]
    else Lines(width, rows[..|rows| - 1], labels) + [TopLine(rows[|rows| - 1], labels), BotLine(rows[|rows| - 1])]
  }

  /** Every line followed by a newline. */
  function Terminated(lines: seq<string>): string
  {
    if lines == [] then "" else Terminated(lines[..|lines| - 1]) + lines[|lines| - 1] + "\n"
  }

  /** `to_string(display_labels)` of a grid `width` cells wide whose rows show `rows`. */
  function Render(width: nat, rows: seq<seq<Tile>>, labels: bool): string
  {
    Terminated(Lines(width, rows, labels))
  }

  /** The picture of no rows is the header line alone. */
  lemma RenderNoRows(width: nat, rows: seq<seq<Tile>>, labels: bool)
    ensures Render(width, rows[..0], labels) == Header(width) + "\n"
  {
    assert rows[..0] == [];
    var lines := [Header(width)];
    assert Lines(width, [], labels) == lines;
    assert lines[..0] == [];
    assert Terminated(lines) == "" + Header(width) + "\n";
  }

  /** One more row adds its top line and then its bottom line, each with its newline. */
  lemma RenderSnoc(width: nat, rows: seq<seq<Tile>>, k: nat, labels: bool)
    requires k < |rows|
    ensures Render(width, rows[..k + 1], labels) ==
      Render(width, rows[..k], labels) + (TopLine(rows[k], labels) + "\n") + (BotLine(rows[k]) + "\n")
  {
    var lines := Lines(width, rows[..k], labels);
    var top, bot := TopLine(rows[k], labels), BotLine(rows[k]);
    assert rows[..k + 1][..k] == rows[..k];
    var more := lines + [top, bot];
    assert Lines(width, rows[..k + 1], labels) == more;
    assert more[..|more| - 1] == lines + [top];
    assert (lines + [top])[..|lines|] == lines;
    var before := Terminated(lines);
    assert Terminated(lines + [top]) == before + top + "\n";
    assert Terminated(more) == before + top + "\n" + bot + "\n";
    assert before + top + "\n" + bot + "\n" == before + (top + "\n") + (bot + "\n");
  }

  /** How often `c` occurs in `s`. */
  function Occurrences(s: string, c: char): nat
  {
    if s == [] then 0 else Occurrences(s[..|s| - 1], c) + (if s[|s| - 1] == c then 1 else 0)
  }

  lemma {:induction false} OccurrencesAppend(s: string, t: string, c: char)
    ensures Occurrences(s + t, c) == Occurrences(s, c) + Occurrences(t, c)
    decreases |t|
  {
    if t != [] {
      OccurrencesAppend(s, t[..|t| - 1], c);
      assert (s + t)[..|s + t| - 1] == s + t[..|t| - 1];
      assert (s + t)[|s + t| - 1] == t[|t| - 1];
    } else {
      assert s + t == s;
    }
  }

  lemma {:induction false} NoOccurrences(s: string, c: char)
    requires forall i :: 0 <= i < |s| ==> s[i] != c
    ensures Occurrences(s, c) == 0
  {
    if s != [] {
      NoOccurrences(s[..|s| - 1], c);
    }
  }

  /** The header is `+---+---+ ... +`: `width + 1` plus signs, three dashes between each two. */
  lemma {:induction false} HeaderShape(width: nat)
    ensures |Header(width)| == 4 * width + 1
    ensures forall i :: 0 <= i < |Header(width)| ==> Header(width)[i] == (if i % 4 == 0 then '+' else '-')
  {
    var parts := seq(width + 1, _ => "+");
    if width > 0 {
      HeaderShape(width - 1);
      assert parts[..width] == seq(width, _ => "+");
      var h := Header(width);
      assert h == Header(width - 1) + "---" + "+";
    }
  }

  /** Labels fit their three columns: every field is exactly three characters wide. */
  predicate Fits(ts: seq<Tile>, labels: bool)
  {
    labels ==> forall c :: 0 <= c < |ts| ==> |ts[c].caption| <= 3
  }

  lemma FieldWidth(t: Tile, labels: bool)
    requires labels ==> |t.caption| <= 3
    ensures |Field(t, labels)| == 3
  {
  }

  /** A slice inside the first part of a concatenation is a slice of that part. */
  lemma SliceOfFront(a: string, b: string, i: nat, j: nat)
    requires i <= j <= |a|
    ensures (a + b)[i..j] == a[i..j]
  {
  }

  /** A slice of the second part of a concatenation, shifted by the first part's length. */
  lemma SliceOfBack(a: string, b: string, i: nat, j: nat, k: nat, l: nat)
    requires i <= j <= |b| && k == |a| + i && l == |a| + j
    ensures (a + b)[k..l] == b[i..j]
  {
  }

  /** The first `n` characters of the slice `s[i..j]` are the slice `s[i..i+n]`. */
  lemma SliceHead(s: string, i: nat, j: nat, k: nat, n: nat)
    requires i <= k <= j <= |s| && n == k - i
    ensures s[i..j][..n] == s[i..k]
  {
  }

  /** Character `n` of the slice `s[i..j]` is character `i+n` of `s`. */
  lemma SliceAt(s: string, i: nat, j: nat, k: nat, n: nat)
    requires i <= k < j <= |s| && n == k - i
    ensures s[i..j][n] == s[k]
  {
  }

  /** The second part of a concatenation is its slice from `|a|` to the end. */
  lemma SliceIsBack(a: string, b: string, i: nat, j: nat)
    requires i == |a| && j == |a| + |b|
    ensures (a + b)[i..j] == b
  {
  }

  lemma PieceWidth(t: Tile, labels: bool)
    requires labels ==> |t.caption| <= 3
    ensures |Piece(t, labels)| == 4
    ensures Piece(t, labels)[..3] == Field(t, labels) && Piece(t, labels)[3] == (if t.eastOpen then ' ' else '|')
  {
    FieldWidth(t, labels);
  }

  lemma FloorWidth(t: Tile)
    ensures |Floor(t)| == 4
  {
  }

  /** Every cell drawn four characters wide. */
  predicate Square(ts: seq<Tile>, draw: Tile -> string)
  {
    forall i :: 0 <= i < |ts| ==> |draw(ts[i])| == 4
  }

  lemma {:induction false} CellsWidth(ts: seq<Tile>, draw: Tile -> string)
    requires Square(ts, draw)
    ensures |Cells(ts, draw)| == 4 * |ts|
  {
    if ts != [] {
      CellsWidth(ts[..|ts| - 1], draw);
    }
  }

  /** When every cell is four wide, cell `c` takes columns `4c .. 4c+3`. */
  lemma {:induction false} CellsColumn(ts: seq<Tile>, draw: Tile -> string, c: nat)
    requires Square(ts, draw) && c < |ts|
    ensures |Cells(ts, draw)| == 4 * |ts|
    ensures Cells(ts, draw)[4 * c..4 * c + 4] == draw(ts[c])
  {
    var n := |ts| - 1;
    var front := ts[..n];
    CellsWidth(front, draw);
    var before := Cells(front, draw);
    var last := draw(ts[n]);
    assert Cells(ts, draw) == before + last;
    if c < n {
      CellsColumn(front, draw, c);
      assert front[c] == ts[c];
      SliceOfFront(before, last, 4 * c, 4 * c + 4);
    } else {
      SliceIsBack(before, last, 4 * c, 4 * c + 4);
    }
  }

  /** With fitting labels every piece of the top line is four wide. */
  lemma TopSquare(ts: seq<Tile>, labels: bool)
    requires Fits(ts, labels)
    ensures Square(ts, t => Piece(t, labels))
  {
    forall i | 0 <= i < |ts| {
      PieceWidth(ts[i], labels);
    }
  }

  /**
   * With fitting labels the top line is `4*width + 1` characters, opens with `|`, and
   * cell `c`'s field fills columns `4c+1 .. 4c+3`, with its east wall at `4c+4`.
   */
  lemma TopLineColumns(ts: seq<Tile>, labels: bool)
    requires Fits(ts, labels)
    ensures |TopLine(ts, labels)| == 4 * |ts| + 1 && TopLine(ts, labels)[0] == '|'
    ensures forall c :: 0 <= c < |ts| ==>
      && TopLine(ts, labels)[4 * c + 1..4 * c + 4] == Field(ts[c], labels)
      && TopLine(ts, labels)[4 * c + 4] == (if ts[c].eastOpen then ' ' else '|')
  {
    var cells := TopCells(ts, labels);
    TopSquare(ts, labels);
    CellsWidth(ts, t => Piece(t, labels));
    forall c | 0 <= c < |ts|
      ensures ("|" + cells)[4 * c + 1..4 * c + 4] == Field(ts[c], labels)
      ensures ("|" + cells)[4 * c + 4] == (if ts[c].eastOpen then ' ' else '|')
    {
      CellsColumn(ts, t => Piece(t, labels), c);
      PieceWidth(ts[c], labels);
      var line := "|" + cells;
      SliceOfBack("|", cells, 4 * c, 4 * c + 4, 4 * c + 1, 4 * c + 5);
      SliceHead(line, 4 * c + 1, 4 * c + 5, 4 * c + 4, 3);
      SliceAt(line, 4 * c + 1, 4 * c + 5, 4 * c + 4, 3);
    }
  }

  /** The bottom line is `4*width + 1` characters, opens with `+`, and the floor of cell `c` fills columns `4c+1 .. 4c+4`. */
  lemma BotLineColumns(ts: seq<Tile>)
    ensures |BotLine(ts)| == 4 * |ts| + 1 && BotLine(ts)[0] == '+'
    ensures forall c :: 0 <= c < |ts| ==> BotLine(ts)[4 * c + 1..4 * c + 5] == Floor(ts[c])
  {
    var cells := BotCells(ts);
    forall i | 0 <= i < |ts| {
      FloorWidth(ts[i]);
    }
    CellsWidth(ts, Floor);
    forall c | 0 <= c < |ts|
      ensures ("+" + cells)[4 * c + 1..4 * c + 5] == Floor(ts[c])
    {
      CellsColumn(ts, Floor, c);
      SliceOfBack("+", cells, 4 * c, 4 * c + 4, 4 * c + 1, 4 * c + 5);
    }
  }

  /** The picture has `2*height + 1` lines: the header, then row `r`'s top line and bottom line at `2r+1` and `2r+2`. */
  lemma {:induction false} LinesLayout(width: nat, rows: seq<seq<Tile>>, labels: bool)
    ensures |Lines(width, rows, labels)| == 2 * |rows| + 1
    ensures Lines(width, rows, labels)[0] == Header(width)
    ensures forall r :: 0 <= r < |rows| ==>
      && Lines(width, rows, labels)[2 * r + 1] == TopLine(rows[r], labels)
      && Lines(width, rows, labels)[2 * r + 2] == BotLine(rows[r])
  {
    if rows != [] {
      var n := |rows| - 1;
      LinesLayout(width, rows[..n], labels);
      forall r | 0 <= r < n
        ensures rows[..n][r] == rows[r]
      {
      }
    }
  }

  lemma NoNewlineInField(t: Tile, labels: bool)
    requires '\n' !in t.caption
    ensures '\n' !in Field(t, labels)
  {
    if labels && |t.caption| < 3 {
      var left := (3 - |t.caption|) / 2;
      var pad := Text.Spaces(left);
      var rest := Text.Spaces(3 - |t.caption| - left);
      assert Field(t, labels) == pad + t.caption + rest;
      assert '\n' !in pad && '\n' !in rest;
    }
  }

  /** No field, wall or floor holds a newline unless a caption does. */
  lemma {:induction false} NoNewlineInRow(ts: seq<Tile>, labels: bool)
    requires forall c :: 0 <= c < |ts| ==> '\n' !in ts[c].caption
    ensures '\n' !in TopCells(ts, labels) && '\n' !in BotCells(ts)
  {
    if ts != [] {
      var n := |ts| - 1;
      NoNewlineInRow(ts[..n], labels);
      NoNewlineInField(ts[n], labels);
      assert TopCells(ts, labels) == TopCells(ts[..n], labels) + Piece(ts[n], labels);
      assert BotCells(ts) == BotCells(ts[..n]) + Floor(ts[n]);
    }
  }

  lemma {:induction false} TerminatedCount(lines: seq<string>)
    requires forall k :: 0 <= k < |lines| ==> '\n' !in lines[k]
    ensures Occurrences(Terminated(lines), '\n') == |lines|
    ensures |Terminated(lines)| > 0 ==> Terminated(lines)[|Terminated(lines)| - 1] == '\n'
  {
    if lines != [] {
      var n := |lines| - 1;
      TerminatedCount(lines[..n]);
      NoOccurrences(lines[n], '\n');
      OccurrencesAppend(Terminated(lines[..n]), lines[n], '\n');
      OccurrencesAppend(Terminated(lines[..n]) + lines[n], "\n", '\n');
    }
  }

  /**
   * The picture is exactly `2*height + 1` newline-terminated lines, as long as no label
   * holds a newline (a decimal number never does).
   */
  lemma HeaderPlain(width: nat)
    ensures '\n' !in Header(width)
  {
    HeaderShape(width);
  }

  /** No line holds a newline when no caption does. */
  lemma {:induction false} LinesPlain(width: nat, rows: seq<seq<Tile>>, labels: bool)
    requires forall r, c :: 0 <= r < |rows| && 0 <= c < |rows[r]| ==> '\n' !in rows[r][c].caption
    ensures forall k :: 0 <= k < |Lines(width, rows, labels)| ==> '\n' !in Lines(width, rows, labels)[k]
  {
    if rows == [] {
      HeaderPlain(width);
    } else {
      var n := |rows| - 1;
      LinesPlain(width, rows[..n], labels);
      NoNewlineInRow(rows[n], labels);
    }
  }

  lemma LineCount(width: nat, rows: seq<seq<Tile>>, labels: bool)
    requires forall r, c :: 0 <= r < |rows| && 0 <= c < |rows[r]| ==> '\n' !in rows[r][c].caption
    ensures Occurrences(Render(width, rows, labels), '\n') == 2 * |rows| + 1
    ensures Render(width, rows, labels)[|Render(width, rows, labels)| - 1] == '\n'
  {
    LinesLayout(width, rows, labels);
    LinesPlain(width, rows, labels);
    TerminatedCount(Lines(width, rows, labels));
  }
}
