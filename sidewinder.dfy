/**
 * `sidewinder` of `algorithms.rs`: each row of a rectangular grid is cut into runs; a run
 * grows east until it is closed, and closing it links one of its cells south. The links are
 * buffered and made once every row has been seen.
 */
module Sidewinder {
  import opened Pos
  import opened Opt
  import opened Topology
  import opened LinkGraph
  import opened Growth
  import opened Generators
  import opened Cells
  import opened Grids
  import opened BinaryTree
  import opened Connectivity

  /** A `links.push` of `sidewinder`: a contained cell joined to the contained cell south or east of it. */
  predicate SouthOrEast(s: Shape, e: Edge)
    requires WellFormed(s)
  {
    Contains(s, e.from) && Contains(s, e.to) && (e.to == South(e.from) || e.to == East(e.from))
  }

  /** The cell east or south of a cell is one of its neighbours. */
  lemma SouthOrEastNeighbors(s: Shape, es: seq<Edge>)
    requires s.Rect? && forall k :: 0 <= k < |es| ==> SouthOrEast(s, es[k])
    ensures NeighborEdges(s, es)
  {
    forall k | 0 <= k < |es|
      ensures es[k].to in Neighbors(s, es[k].from)
    {
      RectNeighborsExact(s, es[k].from, es[k].to);
    }
  }

  /** The open run of row `row`: the cells of that row just west of column `col`, in order. */
  ghost predicate RunEnds(g: MazeGrid, run: seq<Cell>, row: nat, col: nat)
    requires g.shape.Rect?
  {
    && |run| <= col
    && forall j :: 0 <= j < |run| ==>
      && row * g.shape.width + (col - |run| + j) < |g.cells|
      && run[j] == g.cells[row * g.shape.width + (col - |run| + j)]
      && run[j].pos == Position(row, col - |run| + j)
  }

  /** The cell of a rectangular grid at `(row, col)` sits at slot `col + row*width`. */
  lemma RectSlot(g: MazeGrid, row: nat, col: nat)
    requires g.Valid() && g.shape.Rect? && row < g.shape.height && col < g.shape.width
    ensures col + row * g.shape.width < |g.cells|
    ensures g.cells[col + row * g.shape.width].pos == Position(row, col)
    ensures g.cells[col + row * g.shape.width].adjacency == CompassOf(g.shape.width, g.shape.height, Position(row, col))
  {
    g.IndexFormula(Position(row, col));
  }

  /**
   * One cell of `sidewinder`: the cell joins the run; the run is closed at the east boundary,
   * or, off the bottom row, when the coin says so. Closing links a run member south (when it
   * has a south neighbour) and empties the run; otherwise the cell links east.
   */
  method Consider(g: MazeGrid, row: nat, col: nat, run: seq<Cell>, links: seq<Edge>)
    returns (run': seq<Cell>, links': seq<Edge>, ghost closed: bool, added: seq<Edge>)
    requires g.Valid() && g.shape.Rect? && row < g.shape.height && col < g.shape.width
    requires RunEnds(g, run, row, col)
    ensures RunEnds(g, run', row, col + 1)
    ensures links' == links + added
    ensures Closes(g.shape, row, col, closed)
    ensures Adds(g.shape, row, col, |run|, |run'|, closed, added)
  {
    var w, h := g.shape.width, g.shape.height;
    RectSlot(g, row, col);
    var cell := g.Get(Position(row, col)).value;
    run' := run + [cell];
    var eastBound := cell.adjacency.east.None?;
    var southBound := cell.adjacency.south.None?;
    var coin: bool :| true;
    var close := eastBound || (!southBound && coin);
    closed := close;
    added := [];
    if close {
      var k :| 0 <= k < |run'|;
      var choice := run'[k];
      RectSlot(g, row, col - |run| + k);
      if choice.adjacency.south.Some? {
        added := [Edge(choice.pos, choice.adjacency.south.value)];
      }
      run' := [];
    } else if cell.adjacency.east.Some? {
      added := [Edge(cell.pos, cell.adjacency.east.value)];
    }
    links' := links + added;
  }

  /** When a cell closes its run: always at the east boundary, never elsewhere on the bottom row. */
  predicate Closes(s: Shape, row: nat, col: nat, closed: bool)
    requires s.Rect?
  {
    && (col + 1 == s.width ==> closed)
    && (row + 1 == s.height && col + 1 < s.width ==> !closed)
  }

  /**
   * What one cell pushes: an open run grows by the cell, which links east; a closed run
   * links one of its cells (columns `col - runLen` to `col`) south, unless it is on the bottom row.
   */
  predicate Adds(s: Shape, row: nat, col: nat, runLen: nat, runLen': nat, closed: bool, added: seq<Edge>)
    requires s.Rect?
  {
    && (!closed ==> runLen' == runLen + 1 && added == [Edge(Position(row, col), East(Position(row, col)))])
    && (closed ==> runLen' == 0)
    && (closed && row + 1 == s.height ==> added == [])
    && (closed && row + 1 < s.height ==>
          && |added| == 1 && added[0].from.row == row && col - runLen <= added[0].from.col <= col
          && added[0].to == South(added[0].from))
    && forall k :: 0 <= k < |added| ==> SouthOrEast(s, added[k])
  }

  /**
   * The links one row adds: all leave that row, south or east. Off the bottom row there is
   * one per cell; on the bottom row every cell but the last links east and nothing links south.
   */
  predicate RowEdges(s: Shape, row: nat, es: seq<Edge>)
    requires s.Rect?
  {
    && (forall k :: 0 <= k < |es| ==> es[k].from.row == row && SouthOrEast(s, es[k]))
    && |es| == (if s.width == 0 then 0 else if row + 1 == s.height then s.width - 1 else s.width)
    && (row + 1 == s.height ==>
          && (forall k :: 0 <= k < |es| ==> es[k].to == East(es[k].from))
          && forall c: nat :: c + 1 < s.width ==> Edge(Position(row, c), East(Position(row, c))) in es)
  }

  /** The links of row `row` pushed before column `col`, with a run of `runLen` cells still open. */
  predicate RowSoFar(s: Shape, row: nat, col: nat, runLen: nat, es: seq<Edge>)
    requires s.Rect?
  {
    && (forall k :: 0 <= k < |es| ==> es[k].from.row == row && SouthOrEast(s, es[k]))
    && |es| == col
    && (row + 1 == s.height ==>
          && runLen == col
          && (forall k :: 0 <= k < |es| ==> es[k].to == East(es[k].from))
          && forall c: nat :: c < col ==> Edge(Position(row, c), East(Position(row, c))) in es)
  }

  /** Each cell keeps its row's account: one link per cell, and on the bottom row one east link per cell but the last. */
  lemma RowStep(s: Shape, row: nat, col: nat, runLen: nat, runLen': nat, es: seq<Edge>, closed: bool, added: seq<Edge>)
    requires s.Rect? && row < s.height && col < s.width
    requires RowSoFar(s, row, col, runLen, es)
    requires Closes(s, row, col, closed) && Adds(s, row, col, runLen, runLen', closed, added)
    ensures col + 1 < s.width ==> RowSoFar(s, row, col + 1, runLen', es + added)
    ensures col + 1 == s.width ==> RowEdges(s, row, es + added)
  {
    var es' := es + added;
    if row + 1 == s.height {
      assert !closed ==> es'[col] == Edge(Position(row, col), East(Position(row, col)));
    }
  }

  /** The cells of row `row` from column `lo` to column `hi` are joined by east links of `es`. */
  predicate Along(es: seq<Edge>, row: nat, lo: nat, hi: nat)
  {
    forall j: nat :: lo <= j < hi ==> Edge(Position(row, j), East(Position(row, j))) in es
  }

  /** `es` links the cell at `(row, k)` south. */
  predicate SouthLink(es: seq<Edge>, row: nat, k: nat)
  {
    Edge(Position(row, k), South(Position(row, k))) in es
  }

  /**
   * The cell at `(row, c)` is joined along its row to a cell of the first `width` columns
   * that links south: its run was closed.
   */
  ghost predicate Drained(es: seq<Edge>, row: nat, c: nat, width: nat)
  {
    exists k: nat :: k < width && SouthLink(es, row, k) && Along(es, row, if c < k then c else k, if c < k then k else c)
  }

  /**
   * Row `row` up to column `col`, off the bottom row: the open run, the last `runLen` cells
   * before `col`, is joined by east links, and every cell before it drains south.
   */
  ghost predicate RunDrained(es: seq<Edge>, row: nat, col: nat, runLen: nat, width: nat)
  {
    runLen <= col && Along(es, row, col - runLen, col) && forall c: nat :: c < col - runLen ==> Drained(es, row, c, width)
  }

  /** More links keep a cell drained. */
  lemma DrainedGrow(es: seq<Edge>, added: seq<Edge>, row: nat, c: nat, width: nat)
    requires Drained(es, row, c, width)
    ensures Drained(es + added, row, c, width)
  {
    var k: nat :| k < width && SouthLink(es, row, k) && Along(es, row, if c < k then c else k, if c < k then k else c);
    assert SouthLink(es + added, row, k);
  }

  /**
   * Off the bottom row, each cell either extends the open run with its east link or closes
   * the run with a south link from one of its cells, which drains the whole run.
   */
  lemma DrainStep(s: Shape, row: nat, col: nat, runLen: nat, runLen': nat, es: seq<Edge>, closed: bool, added: seq<Edge>)
    requires s.Rect? && row + 1 < s.height && col < s.width
    requires RunDrained(es, row, col, runLen, s.width)
    requires Adds(s, row, col, runLen, runLen', closed, added)
    ensures RunDrained(es + added, row, col + 1, runLen', s.width)
  {
    var es' := es + added;
    forall c: nat | c < col - runLen
      ensures Drained(es', row, c, s.width)
    {
      DrainedGrow(es, added, row, c, s.width);
    }
    if closed {
      var k := added[0].from.col;
      assert SouthLink(es', row, k) by {
        assert added[0] == Edge(Position(row, k), South(Position(row, k)));
      }
      forall c: nat | col - runLen <= c < col + 1
        ensures Drained(es', row, c, s.width)
      {
        assert Along(es', row, if c < k then c else k, if c < k then k else c);
      }
    } else {
      assert es'[|es|] == Edge(Position(row, col), East(Position(row, col)));
    }
  }

  /** `for col in 0..grid.width`: one row of `sidewinder`, appending that row's links to the buffer. */
  method SidewinderRow(g: MazeGrid, row: nat, links: seq<Edge>) returns (links': seq<Edge>)
    requires g.Valid() && g.shape.Rect? && row < g.shape.height
    ensures |links| <= |links'| && links'[..|links|] == links
    ensures RowEdges(g.shape, row, links'[|links|..])
    ensures row + 1 < g.shape.height ==> forall c: nat :: c < g.shape.width ==> Drained(links', row, c, g.shape.width)
  {
    var w := g.shape.width;
    var run: seq<Cell> := [];
    links' := links;
    var col := 0;
    while col < w
      invariant col <= w && RunEnds(g, run, row, col)
      invariant |links| <= |links'| && links'[..|links|] == links
      invariant col == 0 ==> links' == links
      invariant col < w ==> RowSoFar(g.shape, row, col, |run|, links'[|links|..])
      invariant col == w && w > 0 ==> RowEdges(g.shape, row, links'[|links|..])
      invariant col == w && w > 0 ==> run == []
      invariant row + 1 < g.shape.height ==> RunDrained(links', row, col, |run|, g.shape.width)
    {
      ghost var before := links';
      ghost var runLen := |run|;
      ghost var closed;
      var added;
      run, links', closed, added := Consider(g, row, col, run, links');
      RowStep(g.shape, row, col, runLen, |run|, before[|links|..], closed, added);
      if row + 1 < g.shape.height {
        DrainStep(g.shape, row, col, runLen, |run|, before, closed, added);
      }
      assert links'[|links|..] == before[|links|..] + added;
      col := col + 1;
    }
  }

  /** The buffer after rows `0..row`: every link leaves one of those rows, south or east, one per cell but the very last. */
  predicate RowsSoFar(s: Shape, row: nat, links: seq<Edge>)
    requires s.Rect?
  {
    && (forall k :: 0 <= k < |links| ==> links[k].from.row < row && SouthOrEast(s, links[k]))
    && |links| == row * s.width - (if row == s.height && row > 0 && s.width > 0 then 1 else 0)
  }

  /** The bottom row links east from every cell but the last, and nothing there links south. */
  predicate BottomRow(s: Shape, links: seq<Edge>)
    requires s.Rect?
  {
    s.height > 0 ==>
      && (forall k :: 0 <= k < |links| && links[k].from.row + 1 == s.height ==> links[k].to == East(links[k].from))
      && var bottom := s.height - 1;
         forall c: nat :: c + 1 < s.width ==> Edge(Position(bottom, c), East(Position(bottom, c))) in links
  }

  lemma RowsStep(s: Shape, row: nat, links: seq<Edge>, es: seq<Edge>)
    requires s.Rect? && row < s.height && RowsSoFar(s, row, links) && RowEdges(s, row, es)
    ensures RowsSoFar(s, row + 1, links + es)
    ensures row + 1 == s.height ==> BottomRow(s, links + es)
  {
    assert (row + 1) * s.width == row * s.width + s.width;
    var r := links + es;
    forall k | 0 <= k < |r|
      ensures r[k].from.row < row + 1 && SouthOrEast(s, r[k])
    {
      if k >= |links| {
        assert r[k] == es[k - |links|];
      }
    }
    if row + 1 == s.height {
      forall k | 0 <= k < |r| && r[k].from.row + 1 == s.height
        ensures r[k].to == East(r[k].from)
      {
        assert r[k] == es[k - |links|];
      }
    }
  }

  /** Every cell of rows `0..rows` off the bottom row drains south. */
  ghost predicate Drains(s: Shape, rows: nat, es: seq<Edge>)
    requires s.Rect?
  {
    forall r: nat, c: nat :: r < rows && r + 1 < s.height && c < s.width ==> Drained(es, r, c, s.width)
  }

  /** The rows before keep draining when a row's links are appended. */
  lemma DrainsStep(s: Shape, row: nat, links: seq<Edge>, es: seq<Edge>)
    requires s.Rect? && Drains(s, row, links)
    requires row + 1 < s.height ==> forall c: nat :: c < s.width ==> Drained(links + es, row, c, s.width)
    ensures Drains(s, row + 1, links + es)
  {
    forall r: nat, c: nat | r < row && r + 1 < s.height && c < s.width
      ensures Drained(links + es, r, c, s.width)
    {
      DrainedGrow(links, es, r, c, s.width);
    }
  }

  /** `for row in 0..grid.height`: the buffer of links, row after row. */
  method AllRows(g: MazeGrid) returns (links: seq<Edge>)
    requires g.Valid() && g.shape.Rect?
    ensures RowsSoFar(g.shape, g.shape.height, links) && BottomRow(g.shape, links)
    ensures Drains(g.shape, g.shape.height, links)
  {
    links := [];
    var row := 0;
    while row < g.shape.height
      invariant row <= g.shape.height && RowsSoFar(g.shape, row, links)
      invariant row == g.shape.height ==> BottomRow(g.shape, links)
      invariant Drains(g.shape, row, links)
    {
      var links' := SidewinderRow(g, row, links);
      assert links' == links + links'[|links|..];
      RowsStep(g.shape, row, links, links'[|links|..]);
      DrainsStep(g.shape, row, links, links'[|links|..]);
      links := links';
      row := row + 1;
    }
  }

  /** Within a row joined by east links, a region no link leaves holds one cell only with all of them. */
  lemma {:induction false} AlongWalk(es: seq<Edge>, r: set<Position>, row: nat, lo: nat, hi: nat, c: nat, d: nat)
    requires LinkClosed(es, r) && Along(es, row, lo, hi)
    requires lo <= c <= hi && lo <= d <= hi && Position(row, c) in r
    ensures Position(row, d) in r
    decreases if c < d then d - c else c - d
  {
    if c < d {
      Crossing(es, r, Edge(Position(row, c), East(Position(row, c))));
      AlongWalk(es, r, row, lo, hi, c + 1, d);
    } else if d < c {
      Crossing(es, r, Edge(Position(row, c - 1), East(Position(row, c - 1))));
      AlongWalk(es, r, row, lo, hi, c - 1, d);
    }
  }

  /**
   * The links of `sidewinder` connect every row to the bottom-right corner: the bottom row is
   * one corridor, and every other cell drains along its run into the row below.
   */
  lemma {:induction false} RowCovered(s: Shape, es: seq<Edge>, r: set<Position>, row: nat)
    requires s.Rect? && row < s.height && 0 < s.width
    requires Drains(s, s.height, es) && BottomRow(s, es) && LinkClosed(es, r)
    requires Position(s.height - 1, s.width - 1) in r
    ensures RowHeld(r, row, s.width)
    decreases s.height - row
  {
    if row + 1 == s.height {
      forall c: nat | c < s.width
        ensures Position(row, c) in r
      {
        AlongWalk(es, r, row, 0, s.width - 1, s.width - 1, c);
      }
    } else {
      RowCovered(s, es, r, row + 1);
      forall c: nat | c < s.width
        ensures Position(row, c) in r
      {
        DrainUp(es, r, row, c, s.width);
      }
    }
  }

  /** The region holds the first `width` cells of row `row`. */
  ghost predicate RowHeld(r: set<Position>, row: nat, width: nat)
  {
    forall c: nat :: c < width ==> Position(row, c) in r
  }

  /** A cell drains south into a row the region holds, so the region holds the cell. */
  lemma DrainUp(es: seq<Edge>, r: set<Position>, row: nat, c: nat, width: nat)
    requires Drained(es, row, c, width) && LinkClosed(es, r)
    requires RowHeld(r, row + 1, width)
    ensures Position(row, c) in r
  {
    var k: nat :| k < width && SouthLink(es, row, k) && Along(es, row, if c < k then c else k, if c < k then k else c);
    var e := Edge(Position(row, k), South(Position(row, k)));
    assert South(Position(row, k)) in r;
    Crossing(es, r, e);
    AlongWalk(es, r, row, if c < k then c else k, if c < k then k else c, k, c);
  }

  /** A region that holds the bottom-right corner and that no link of `sidewinder` leaves is the whole grid. */
  lemma SidewinderCovers(s: Shape, es: seq<Edge>, r: set<Position>)
    requires s.Rect? && 0 < s.height && 0 < s.width
    requires Drains(s, s.height, es) && BottomRow(s, es) && LinkClosed(es, r)
    requires Position(s.height - 1, s.width - 1) in r
    ensures LaidSet(s) <= r
  {
    forall p | p in LaidSet(s)
      ensures p in r
    {
      RowCovered(s, es, r, p.row);
    }
  }

  /** Links that each join the ends of a pushed link are neighbour links between laid-out cells. */
  lemma TakenNeighbors(s: Shape, es: seq<Edge>, fs: seq<Edge>)
    requires s.Rect? && forall k :: 0 <= k < |es| ==> SouthOrEast(s, es[k])
    requires forall j :: 0 <= j < |fs| ==> JoinedBy(es, fs[j].from, fs[j].to)
    ensures NeighborEdges(s, fs) && EdgesLaid(s, fs)
  {
    forall j | 0 <= j < |fs|
      ensures fs[j].to in Neighbors(s, fs[j].from) && fs[j].from in LaidSet(s) && fs[j].to in LaidSet(s)
    {
      var k :| 0 <= k < |es| && Joins(es[k], fs[j].from, fs[j].to);
      RectNeighborsExact(s, es[k].from, es[k].to);
      LinkableStep(s, es[k].from, es[k].to);
      if es[k] != fs[j] {
        NeighborsSymmetric(s, es[k].from, es[k].to);
      }
    }
  }

  /** The cells a forest of laid-out links reaches from a laid-out root are laid out. */
  lemma ReachedLaid(s: Shape, root: Position, fs: seq<Edge>)
    requires root in LaidSet(s) && EdgesLaid(s, fs)
    ensures Reached({root}, fs) <= LaidSet(s)
  {
    forall p | p in Reached({root}, fs)
      ensures p in LaidSet(s)
    {
      if p != root {
        var j := HeadIndex(fs, p);
      }
    }
  }

  /** When `Arrange` stops, no pushed link leaves the reached cells. */
  lemma ArrangedClosed(es: seq<Edge>, fs: seq<Edge>, unused: set<nat>, r: set<Position>)
    requires forall k :: k in unused ==> k < |es| && !Crosses(es[k], r)
    requires forall k :: 0 <= k < |es| && k !in unused ==> Taken(es[k], fs, r)
    ensures LinkClosed(es, r)
  {
    forall k | 0 <= k < |es|
      ensures es[k].from in r <==> es[k].to in r
    {
      if k !in unused {
        assert Taken(es[k], fs, r);
      }
    }
  }

  /** Once every pushed link is taken, the taken links join the same pairs and make the same link map. */
  lemma ArrangedSame(s: Shape, m: Links, es: seq<Edge>, fs: seq<Edge>)
    requires m.Keys == LaidSet(s) && Within(m, es) && EdgesLaid(s, fs)
    requires forall k :: 0 <= k < |es| ==> JoinedBy(fs, es[k].from, es[k].to)
    requires forall j :: 0 <= j < |fs| ==> JoinedBy(es, fs[j].from, fs[j].to)
    ensures Within(m, fs) && AddAll(m, fs) == AddAll(m, es)
  {
    forall p, q
      ensures JoinedBy(es, p, q) <==> JoinedBy(fs, p, q)
    {
      if JoinedBy(es, p, q) {
        JoinedByAll(es, fs, p, q);
      }
      if JoinedBy(fs, p, q) {
        JoinedByAll(fs, es, p, q);
      }
    }
    SameJoins(m, es, fs);
  }

  /** Two sets, each inside the other, are equal. */
  lemma BothWays(a: set<Position>, b: set<Position>)
    requires a <= b && b <= a
    ensures a == b
  {
  }

  /** A forest that reaches all of `laid` with one link fewer than its cells has taken every link. */
  lemma AllTaken(root: Position, es: seq<Edge>, fs: seq<Edge>, unused: set<nat>, laid: set<Position>)
    requires Forest({root}, fs) && Reached({root}, fs) == laid && |es| + 1 == |laid| && |fs| + |unused| == |es|
    requires forall k :: 0 <= k < |es| && k !in unused ==> Taken(es[k], fs, laid)
    ensures forall k :: 0 <= k < |es| ==> JoinedBy(fs, es[k].from, es[k].to)
  {
    ForestCount({root}, fs);
    assert |Reached({root}, fs)| == |fs| + 1;
    assert unused == {};
  }

  /**
   * The links `sidewinder` pushes, put in tree order from the bottom-right corner: together
   * they reach every cell, and `Arrange` stops with every link taken, since the pushed links
   * are one fewer than the cells and each one taken reaches a new cell.
   */
  lemma SidewinderSpanning(s: Shape, m: Links, es: seq<Edge>, fs: seq<Edge>, unused: set<nat>)
    requires s.Rect? && 0 < s.height && 0 < s.width && Within(m, es) && m.Keys == LaidSet(s)
    requires forall k :: 0 <= k < |es| ==> SouthOrEast(s, es[k])
    requires Drains(s, s.height, es) && BottomRow(s, es) && |es| + 1 == |LaidSet(s)|
    requires var root := Position(s.height - 1, s.width - 1);
      && Forest({root}, fs) && |fs| + |unused| == |es|
      && (forall k :: k in unused ==> k < |es| && !Crosses(es[k], Reached({root}, fs)))
      && (forall k :: 0 <= k < |es| && k !in unused ==> Taken(es[k], fs, Reached({root}, fs)))
      && (forall j :: 0 <= j < |fs| ==> JoinedBy(es, fs[j].from, fs[j].to))
    ensures Reached({Position(s.height - 1, s.width - 1)}, fs) == LaidSet(s)
    ensures NeighborEdges(s, fs) && Within(m, fs) && AddAll(m, fs) == AddAll(m, es)
  {
    var root := Position(s.height - 1, s.width - 1);
    var r := Reached({root}, fs);
    TakenNeighbors(s, es, fs);
    ReachedLaid(s, root, fs);
    ArrangedClosed(es, fs, unused, r);
    SidewinderCovers(s, es, r);
    BothWays(r, LaidSet(s));
    AllTaken(root, es, fs, unused, LaidSet(s));
    ArrangedSame(s, m, es, fs);
  }

  /**
   * `sidewinder`: each row in turn pushes its links into the buffer, which is then applied.
   * One link per cell but the last, each to the cell south or east; the bottom row is one
   * eastward corridor. The same links, taken in the order `edges` from the bottom-right
   * corner, form a spanning tree: each joins a reached cell to a new one, and all cells are reached.
   */
  method Sidewinder(g: MazeGrid) returns (ghost pushed: seq<Edge>, ghost edges: seq<Edge>)
    requires g.Valid() && g.shape.Rect?
    modifies g`links, g.cells`links
    ensures g.Valid()
    ensures Within(old(g.links), pushed) && g.links == AddAll(old(g.links), pushed)
    ensures forall k :: 0 <= k < |pushed| ==> SouthOrEast(g.shape, pushed[k])
    ensures |pushed| == (if |g.cells| == 0 then 0 else |g.cells| - 1)
    ensures BottomRow(g.shape, pushed)
    ensures g.shape.height > 0 && g.shape.width > 0 ==>
      && Within(old(g.links), edges) && g.links == AddAll(old(g.links), edges)
      && Forest({Corner(g.shape)}, edges) && Reached({Corner(g.shape)}, edges) == LaidSet(g.shape)
      && NeighborEdges(g.shape, edges)
  {
    ghost var m := g.links;
    var links := AllRows(g);
    RectOffset(g.shape, g.shape.height);
    g.LaidCount();
    ApplyLinks(g, links);
    pushed := links;
    edges := [];
    if g.shape.height > 0 && g.shape.width > 0 {
      edges := TreeOrder(g.shape, m, links);
    }
  }

  /** The bottom-right corner of a rectangular grid with cells. */
  function Corner(s: Shape): Position
    requires s.Rect? && 0 < s.height && 0 < s.width
  {
    Position(s.height - 1, s.width - 1)
  }

  /** The pushed links in tree order from the bottom-right corner, making the same link map. */
  ghost method TreeOrder(s: Shape, m: Links, es: seq<Edge>) returns (fs: seq<Edge>)
    requires s.Rect? && 0 < s.height && 0 < s.width && Within(m, es) && m.Keys == LaidSet(s)
    requires forall k :: 0 <= k < |es| ==> SouthOrEast(s, es[k])
    requires Drains(s, s.height, es) && BottomRow(s, es) && |es| + 1 == |LaidSet(s)|
    ensures Within(m, fs) && AddAll(m, fs) == AddAll(m, es)
    ensures Forest({Corner(s)}, fs) && Reached({Corner(s)}, fs) == LaidSet(s)
    ensures NeighborEdges(s, fs)
  {
    var unused;
    fs, unused := Arrange(es, Corner(s));
    SidewinderSpanning(s, m, es, fs, unused);
  }
}
