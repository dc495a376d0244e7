/**
 * The neighbour graph of a well-formed grid is connected: a region that holds one cell and
 * borders no cell outside itself is the whole grid. A generator whose links form a forest
 * from one cell and end on such a region has therefore built a spanning tree of the grid.
 */
module Connectivity {
  import opened Pos
  import opened Topology
  import opened Growth
  import opened LinkGraph
  import opened Generators

  /** A neighbour of a cell of a closed region lies in the region. */
  lemma Spread(s: Shape, r: set<Position>, p: Position, q: Position)
    requires WellFormed(s) && Closed(s, r, LaidSet(s) - r) && p in r && q in Neighbors(s, p)
    ensures q in r
  {
    LinkableStep(s, p, q);
    assert Exhausted(s, p, LaidSet(s) - r);
  }

  /** Along a row of a rectangular grid, a closed region holding one cell holds them all. */
  lemma {:induction false} RowSpread(s: Shape, r: set<Position>, row: nat, c: nat, d: nat)
    requires WellFormed(s) && s.Rect? && Closed(s, r, LaidSet(s) - r)
    requires row < s.height && c < s.width && d < s.width && Position(row, c) in r
    ensures Position(row, d) in r
    decreases if c < d then d - c else c - d
  {
    var p := Position(row, c);
    if c < d {
      RectNeighborsExact(s, p, Position(row, c + 1));
      Spread(s, r, p, Position(row, c + 1));
      RowSpread(s, r, row, c + 1, d);
    } else if d < c {
      RectNeighborsExact(s, p, Position(row, c - 1));
      Spread(s, r, p, Position(row, c - 1));
      RowSpread(s, r, row, c - 1, d);
    }
  }

  /** Along a column of a rectangular grid, likewise. */
  lemma {:induction false} ColumnSpread(s: Shape, r: set<Position>, col: nat, a: nat, b: nat)
    requires WellFormed(s) && s.Rect? && Closed(s, r, LaidSet(s) - r)
    requires col < s.width && a < s.height && b < s.height && Position(a, col) in r
    ensures Position(b, col) in r
    decreases if a < b then b - a else a - b
  {
    var p := Position(a, col);
    if a < b {
      RectNeighborsExact(s, p, Position(a + 1, col));
      Spread(s, r, p, Position(a + 1, col));
      ColumnSpread(s, r, col, a + 1, b);
    } else if b < a {
      RectNeighborsExact(s, p, Position(a - 1, col));
      Spread(s, r, p, Position(a - 1, col));
      ColumnSpread(s, r, col, a - 1, b);
    }
  }

  /** In a polar grid the inward steps from any cell of a closed region lead to the centre. */
  lemma {:induction false} ToCentre(s: Shape, r: set<Position>, p: Position)
    requires WellFormed(s) && s.Polar? && Contains(s, p) && p in r && Closed(s, r, LaidSet(s) - r)
    ensures Position(0, 0) in r
    decreases p.row
  {
    if p.row >= 1 {
      var q := Inward(s, p);
      InwardParent(s, p);
      PolarNeighbors(s, p, q);
      Spread(s, r, p, q);
      ToCentre(s, r, q);
    }
  }

  /** And from the centre the outward steps lead to every cell of a polar grid. */
  lemma {:induction false} FromCentre(s: Shape, r: set<Position>, p: Position)
    requires WellFormed(s) && s.Polar? && Contains(s, p) && Position(0, 0) in r && Closed(s, r, LaidSet(s) - r)
    ensures p in r
    decreases p.row
  {
    if p.row >= 1 {
      var q := Inward(s, p);
      InwardParent(s, p);
      FromCentre(s, r, q);
      PolarNeighbors(s, q, p);
      Spread(s, r, q, p);
    }
  }

  /**
   * The grid is connected: a region that holds a cell and has no neighbour outside itself
   * holds every cell, in both shapes (a polar grid of no rings has its centre cell alone).
   */
  lemma ClosedCovers(s: Shape, start: Position, r: set<Position>)
    requires WellFormed(s) && start in LaidSet(s) && start in r && Closed(s, r, LaidSet(s) - r)
    ensures LaidSet(s) <= r
  {
    if s.Rect? {
      forall p | p in LaidSet(s)
        ensures p in r
      {
        RowSpread(s, r, start.row, start.col, p.col);
        ColumnSpread(s, r, p.col, start.row, p.row);
      }
    } else if s.rows >= 1 {
      ToCentre(s, r, start);
      forall p | p in LaidSet(s)
        ensures p in r
      {
        FromCentre(s, r, p);
      }
    }
  }

  /**
   * A forest of neighbour links grown from `start` that ends on a closed region is a
   * spanning tree: it reaches every cell, with one link fewer than there are cells.
   */
  lemma SpanningTree(s: Shape, start: Position, edges: seq<Edge>)
    requires WellFormed(s) && start in LaidSet(s) && Forest({start}, edges) && NeighborEdges(s, edges)
    requires Closed(s, Reached({start}, edges), LaidSet(s) - Reached({start}, edges))
    ensures Reached({start}, edges) == LaidSet(s)
    ensures |edges| + 1 == |LaidSet(s)|
  {
    var r := Reached({start}, edges);
    forall p | p in r
      ensures p in LaidSet(s)
    {
      if p != start {
        var k := HeadIndex(edges, p);
        LinkableStep(s, edges[k].from, edges[k].to);
      }
    }
    ClosedCovers(s, start, r);
    ForestCount({start}, edges);
  }

  // ---------------------------------------------------------------------------
  // Putting links that connect the grid in the order of a spanning tree

  /** No link of `es` joins a cell of `r` to a cell outside it. */
  predicate LinkClosed(es: seq<Edge>, r: set<Position>)
  {
    forall k :: 0 <= k < |es| ==> (es[k].from in r <==> es[k].to in r)
  }

  /** The link has exactly one end in `r`. */
  predicate Crosses(e: Edge, r: set<Position>)
  {
    (e.from in r) != (e.to in r)
  }

  /** A link of a region no link leaves has both ends in the region or neither. */
  lemma Crossing(es: seq<Edge>, r: set<Position>, e: Edge)
    requires LinkClosed(es, r) && e in es
    ensures e.from in r <==> e.to in r
  {
    var k :| 0 <= k < |es| && es[k] == e;
  }

  /** The indices `0..n`. */
  function Range(n: nat): (r: set<nat>)
    ensures forall k: nat :: k in r <==> k < n
    ensures |r| == n
  {
    if n == 0 then {} else Range(n - 1) + {n - 1}
  }

  /**
   * The links `es`, taken from `root` in an order where each one leaves the cells reached
   * so far for a new cell: the links are taken over, turned where needed, while one of them
   * crosses the border of the reached cells. The links left over (`unused`) cross nothing.
   */
  ghost method Arrange(es: seq<Edge>, root: Position) returns (fs: seq<Edge>, unused: set<nat>)
    ensures Forest({root}, fs)
    ensures |fs| + |unused| == |es|
    ensures forall k :: k in unused ==> k < |es| && !Crosses(es[k], Reached({root}, fs))
    ensures forall k :: 0 <= k < |es| && k !in unused ==> Taken(es[k], fs, Reached({root}, fs))
    ensures forall j :: 0 <= j < |fs| ==> JoinedBy(es, fs[j].from, fs[j].to)
  {
    fs, unused := [], Range(|es|);
    while exists k :: k in unused && k < |es| && Crosses(es[k], Reached({root}, fs))
      invariant Forest({root}, fs)
      invariant |fs| + |unused| == |es|
      invariant forall k :: k in unused ==> k < |es|
      invariant forall k :: 0 <= k < |es| && k !in unused ==> Taken(es[k], fs, Reached({root}, fs))
      invariant forall j :: 0 <= j < |fs| ==> JoinedBy(es, fs[j].from, fs[j].to)
      decreases |unused|
    {
      var k :| k in unused && k < |es| && Crosses(es[k], Reached({root}, fs));
      var e := if es[k].from in Reached({root}, fs) then es[k] else Edge(es[k].to, es[k].from);
      ArrangeStep(es, root, fs, unused, k, e);
      fs, unused := fs + [e], unused - {k};
    }
  }

  /** Link `e` joins two cells of `r` and is joined by a link of `fs`. */
  predicate Taken(e: Edge, fs: seq<Edge>, r: set<Position>)
  {
    e.from in r && e.to in r && JoinedBy(fs, e.from, e.to)
  }

  /** Taking over a crossing link, turned to leave the reached cells, keeps what `Arrange` promises. */
  lemma ArrangeStep(es: seq<Edge>, root: Position, fs: seq<Edge>, unused: set<nat>, k: nat, e: Edge)
    requires Forest({root}, fs) && k in unused && k < |es| && Crosses(es[k], Reached({root}, fs))
    requires e == if es[k].from in Reached({root}, fs) then es[k] else Edge(es[k].to, es[k].from)
    requires forall i :: 0 <= i < |es| && i !in unused ==> Taken(es[i], fs, Reached({root}, fs))
    requires forall j :: 0 <= j < |fs| ==> JoinedBy(es, fs[j].from, fs[j].to)
    ensures Forest({root}, fs + [e]) && Reached({root}, fs + [e]) == Reached({root}, fs) + {e.to}
    ensures forall i :: 0 <= i < |es| && i !in unused - {k} ==> Taken(es[i], fs + [e], Reached({root}, fs + [e]))
    ensures forall j :: 0 <= j < |fs| + 1 ==> JoinedBy(es, (fs + [e])[j].from, (fs + [e])[j].to)
  {
    var fs' := fs + [e];
    ForestSnoc({root}, fs, e);
    forall i | 0 <= i < |es| && i !in unused - {k}
      ensures Taken(es[i], fs', Reached({root}, fs'))
    {
      JoinedBySnoc(fs, e, es[i].from, es[i].to);
    }
    forall j | 0 <= j < |fs'|
      ensures JoinedBy(es, fs'[j].from, fs'[j].to)
    {
      if j == |fs| {
        assert Joins(es[k], fs'[j].from, fs'[j].to);
      } else {
        assert fs'[j] == fs[j];
      }
    }
  }

  /** When every link of `es` is joined by one of `fs`, every pair `es` joins `fs` joins too. */
  lemma JoinedByAll(es: seq<Edge>, fs: seq<Edge>, p: Position, q: Position)
    requires forall k :: 0 <= k < |es| ==> JoinedBy(fs, es[k].from, es[k].to)
    requires JoinedBy(es, p, q)
    ensures JoinedBy(fs, p, q)
  {
    var k :| 0 <= k < |es| && Joins(es[k], p, q);
    var j :| 0 <= j < |fs| && Joins(fs[j], es[k].from, es[k].to);
    assert Joins(fs[j], p, q);
  }

  /** Two lists of calls that join the same pairs make the same link map. */
  lemma SameJoins(m: Links, es: seq<Edge>, fs: seq<Edge>)
    requires Within(m, es) && Within(m, fs)
    requires forall p, q :: JoinedBy(es, p, q) <==> JoinedBy(fs, p, q)
    ensures AddAll(m, es) == AddAll(m, fs)
  {
    var a, b := AddAll(m, es), AddAll(m, fs);
    forall p | p in a
      ensures a[p] == b[p]
    {
      forall q
        ensures q in a[p] <==> q in b[p]
      {
        AddAllLinks(m, es, p, q);
        AddAllLinks(m, fs, p, q);
      }
    }
    SameLinks(a, b);
  }
}
