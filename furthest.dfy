/**
 * `furthest_on_rim` and `furthest_corners` of `solver.rs`: run `dijkstra` and read the weights
 * it leaves to pick cells far apart (a rim cell far from a given cell on a polar grid, and
 * the pair of corners furthest apart on a rectangular grid).
 */
module Furthest {
  import opened Pos
  import opened Topology
  import opened LinkGraph
  import opened Grids
  import opened Solver

  // ---------------------------------------------------------------------------
  // furthest_on_rim

  /**
   * Column `c` of ring `row` (of `n` columns) is the first one of largest weight: no column
   * weighs more, and every column before it weighs strictly less.
   */
  ghost predicate FirstHeaviest(w: Weights, row: nat, n: nat, c: nat)
  {
    && c < n
    && (forall j :: 0 <= j < n ==> Position(row, j) in w)
    && (forall j :: 0 <= j < n ==> w[Position(row, j)] <= w[Position(row, c)])
    && (forall j :: 0 <= j < c ==> w[Position(row, j)] < w[Position(row, c)])
  }

  /** At most one column is the first heaviest. */
  lemma FirstHeaviestUnique(w: Weights, row: nat, n: nat, c1: nat, c2: nat)
    requires FirstHeaviest(w, row, n, c1) && FirstHeaviest(w, row, n, c2)
    ensures c1 == c2
  {
    assert w[Position(row, c1)] == w[Position(row, c2)];
  }

  /**
   * The scan of `furthest_on_rim` over ring `row`: keeps the running maximum (starting at 0 at
   * column 0) and moves only on a strictly larger weight, so it ends on the first column of
   * largest weight.
   */
  method HeaviestInRing(g: MazeGrid, row: nat) returns (r: Position)
    requires g.WeightsMirrored() && g.shape.Polar? && row < g.shape.rows
    ensures r.row == row && FirstHeaviest(g.weights, row, g.shape.columnCounts[row], r.col)
  {
    var numCols := g.shape.columnCounts[row];
    var max := 0;
    var maxPos := Position(row, 0);
    for col := 0 to numCols
      invariant maxPos.row == row && maxPos.col < numCols
      invariant forall j :: 0 <= j < col ==> Position(row, j) in g.weights && g.weights[Position(row, j)] <= max
      invariant max == 0 ==> maxPos.col == 0
      invariant max > 0 ==> maxPos.col < col && Position(row, maxPos.col) in g.weights && g.weights[maxPos] == max
      invariant forall j :: 0 <= j < maxPos.col ==> g.weights[Position(row, j)] < max
    {
      var pos := Position(row, col);
      var cell := g.Get(pos).value;
      assert cell.weight == g.WeightOf(pos);
      if cell.weight > max {
        max := cell.weight;
        maxPos := pos;
      }
    }
    assert g.weights[Position(row, 0)] <= max;
    r := g.Get(maxPos).value.pos;
  }

  /**
   * `furthest_on_rim`: labels the grid from `from`, then picks the first cell of the outer
   * ring with the largest weight. A polar grid without rings has no outer ring (the source
   * subtracts one from the ring count).
   */
  method FurthestOnRim(g: MazeGrid, from: Position) returns (r: Position)
    requires g.Valid() && g.shape.Polar? && g.shape.rows >= 1
    modifies g`weights, g.cells`weight
    ensures g.Valid()
    ensures Labelled(Graph(g.shape, g.links), from, old(g.weights), g.weights)
    ensures r.row == g.shape.rows - 1
    ensures FirstHeaviest(g.weights, r.row, g.shape.columnCounts[r.row], r.col)
  {
    Dijkstra(g, from);
    r := HeaviestInRing(g, g.shape.rows - 1);
  }

  /**
   * Read through `dijkstra`'s labels, the first heaviest column is the furthest: a cell of
   * the ring that lies `d` links from the start is no further than the chosen one, when the
   * chosen one is reachable as well.
   */
  lemma HeaviestIsFurthest(m: Links, start: Position, w0: Weights, w: Weights, row: nat, n: nat, c: nat,
                           j: nat, d: nat, e: nat)
    requires Labelled(m, start, w0, w) && FirstHeaviest(w, row, n, c) && j < n
    requires Position(row, j) in m && Position(row, j) in Layer(m, start, d)
    requires Position(row, c) in m && Position(row, c) in Layer(m, start, e)
    ensures d <= e
  {
    WeightIsLayer(m, start, w, d, Position(row, j));
    WeightIsLayer(m, start, w, e, Position(row, c));
  }

  // ---------------------------------------------------------------------------
  // furthest_corners

  /** An entry of `candidates`: the corner `dijkstra` started from, the corner found furthest from it, and its weight. */
  datatype Candidate = Candidate(anchor: Position, corner: Position, distance: nat)

  /** The four corners, in the order `furthest_corners` lists them. */
  function Corners(width: nat, height: nat): (cs: seq<Position>)
    requires width >= 1 && height >= 1
    ensures |cs| == 4
    ensures forall k :: 0 <= k < 4 ==> cs[k].row in {0, height - 1} && cs[k].col in {0, width - 1}
  {
    [Position(0, 0), Position(0, width - 1), Position(height - 1, 0), Position(height - 1, width - 1)]
  }

  /** Index `i` holds a largest key and every later key is strictly smaller: the last maximum. */
  predicate LastMax(ks: seq<nat>, i: nat)
  {
    && i < |ks|
    && (forall j :: 0 <= j < |ks| ==> ks[j] <= ks[i])
    && (forall j :: i < j < |ks| ==> ks[j] < ks[i])
  }

  /** At most one index is the last maximum. */
  lemma LastMaxUnique(ks: seq<nat>, i1: nat, i2: nat)
    requires LastMax(ks, i1) && LastMax(ks, i2)
    ensures i1 == i2
  {
    assert ks[i1] == ks[i2];
  }

  /** `max_by_key`: of several equally largest keys, the last one wins. */
  function LastMaxIndex(ks: seq<nat>): (i: nat)
    requires |ks| >= 1
    ensures LastMax(ks, i)
  {
    if |ks| == 1 then 0
    else
      var i := LastMaxIndex(ks[..|ks| - 1]);
      assert forall j :: 0 <= j < |ks| - 1 ==> ks[..|ks| - 1][j] == ks[j];
      if ks[|ks| - 1] >= ks[i] then |ks| - 1 else i
  }

  /**
   * `perm` lists the indices of `ks` once each, by ascending key, with equal keys in their
   * original order: the order a stable sort by key leaves.
   */
  predicate StablySorted(ks: seq<nat>, perm: seq<nat>)
  {
    && |perm| == |ks|
    && (forall t :: 0 <= t < |perm| ==> perm[t] < |ks|)
    && (forall j :: 0 <= j < |ks| ==> j in perm)
    && (forall s, t :: 0 <= s < t < |perm| ==> ks[perm[s]] <= ks[perm[t]])
    && (forall s, t :: 0 <= s < t < |perm| && ks[perm[s]] == ks[perm[t]] ==> perm[s] < perm[t])
  }

  /** After `sort_by_key`, which is stable, the last entry is the last maximum. */
  lemma StableSortLast(ks: seq<nat>, perm: seq<nat>)
    requires StablySorted(ks, perm) && |ks| >= 1
    ensures LastMax(ks, perm[|perm| - 1])
  {
    var n := |perm| - 1;
    var i := perm[n];
    forall j | 0 <= j < |ks|
      ensures ks[j] <= ks[i] && (j > i ==> ks[j] < ks[i])
    {
      assert j in perm;
      var t :| 0 <= t < |perm| && perm[t] == j;
      if t < n {
        assert ks[perm[t]] <= ks[perm[n]];
      }
    }
  }

  /** The distances of the candidates, in order. */
  function Distances(cands: seq<Candidate>): (ks: seq<nat>)
    ensures |ks| == |cands| && forall k :: 0 <= k < |cands| ==> ks[k] == cands[k].distance
  {
    if cands == [] then [] else Distances(cands[..|cands| - 1]) + [cands[|cands| - 1].distance]
  }

  /**
   * What one round of `furthest_corners` records, labelling from `anchor` over weights `w`:
   * the candidate starts at `anchor` and holds the last corner of largest weight, with that weight.
   */
  ghost predicate FarCorner(cs: seq<Position>, w: Weights, anchor: Position, c: Candidate)
  {
    && (forall k :: 0 <= k < |cs| ==> cs[k] in w)
    && c.anchor == anchor
    && exists k: nat :: LastMax(WeightsAt(w, cs), k) && c.corner == cs[k] && c.distance == w[cs[k]]
  }

  /** The weights of `ps`, in order. */
  function WeightsAt(w: Weights, ps: seq<Position>): (ks: seq<nat>)
    requires forall k :: 0 <= k < |ps| ==> ps[k] in w
    ensures |ks| == |ps| && forall k :: 0 <= k < |ps| ==> ks[k] == w[ps[k]]
  {
    if ps == [] then [] else WeightsAt(w, ps[..|ps| - 1]) + [w[ps[|ps| - 1]]]
  }

  /** The weights of the four corner cells, read from the cells as `furthest_corners` does. */
  function CornerWeights(g: MazeGrid, cs: seq<Position>): (ks: seq<nat>)
    reads g, g.cells
    requires g.WeightsMirrored() && |cs| == 4
    requires forall k :: 0 <= k < 4 ==> Topology.Contains(g.shape, cs[k])
    ensures (forall k :: 0 <= k < 4 ==> cs[k] in g.weights) && ks == WeightsAt(g.weights, cs)
  {
    var ks := [g.WeightOf(cs[0]), g.WeightOf(cs[1]), g.WeightOf(cs[2]), g.WeightOf(cs[3])];
    assert WeightsAt(g.weights, cs)[3] == ks[3];
    ks
  }

  /** One round of `furthest_corners`: label from `anchor`, then take the last heaviest corner. */
  method CornerRound(g: MazeGrid, cs: seq<Position>, anchor: Position) returns (c: Candidate)
    requires g.Valid() && g.shape.Rect? && |cs| == 4
    requires forall k :: 0 <= k < 4 ==> Topology.Contains(g.shape, cs[k])
    modifies g`weights, g.cells`weight
    ensures g.Valid()
    ensures Labelled(Graph(g.shape, g.links), anchor, old(g.weights), g.weights)
    ensures FarCorner(cs, g.weights, anchor, c)
  {
    Dijkstra(g, anchor);
    var ks := CornerWeights(g, cs);
    var k := LastMaxIndex(ks);
    c := Candidate(anchor, cs[k], ks[k]);
  }

  /**
   * Round `j` of `furthest_corners`, over the weights `ws[j]` it leaves: the weights before
   * it (`w0` for the first round) are relabelled from corner `cs[j]`, and `cands[j]` records
   * the last heaviest corner.
   */
  ghost predicate Round(m: Links, cs: seq<Position>, w0: Weights, ws: seq<Weights>, cands: seq<Candidate>, j: nat)
    requires j < |cs| && j < |ws| && j < |cands|
  {
    && Labelled(m, cs[j], if j == 0 then w0 else ws[j - 1], ws[j])
    && FarCorner(cs, ws[j], cs[j], cands[j])
  }

  /** Appending a round keeps an earlier round as it was. */
  lemma RoundKept(m: Links, cs: seq<Position>, w0: Weights, ws: seq<Weights>, cands: seq<Candidate>, w: Weights, c: Candidate, j: nat)
    requires j < |ws| == |cands| < |cs| && Round(m, cs, w0, ws, cands, j)
    ensures Round(m, cs, w0, ws + [w], cands + [c], j)
  {
    var prev := if j == 0 then w0 else ws[j - 1];
    assert (if j == 0 then w0 else (ws + [w])[j - 1]) == prev;
    assert (ws + [w])[j] == ws[j] && (cands + [c])[j] == cands[j];
  }

  /** The appended round is the last one. */
  lemma RoundAdded(m: Links, cs: seq<Position>, w0: Weights, ws: seq<Weights>, cands: seq<Candidate>, w: Weights, c: Candidate)
    requires |ws| == |cands| < |cs|
    requires Labelled(m, cs[|ws|], if ws == [] then w0 else ws[|ws| - 1], w) && FarCorner(cs, w, cs[|ws|], c)
    ensures Round(m, cs, w0, ws + [w], cands + [c], |ws|)
  {
    var j := |ws|;
    assert (if j == 0 then w0 else (ws + [w])[j - 1]) == (if ws == [] then w0 else ws[|ws| - 1]);
    assert (ws + [w])[j] == w && (cands + [c])[j] == c;
  }

  /** Appending a round keeps the earlier rounds as they were. */
  lemma RoundsSnoc(m: Links, cs: seq<Position>, w0: Weights, ws: seq<Weights>, cands: seq<Candidate>, w: Weights, c: Candidate)
    requires |ws| == |cands| < |cs|
    requires forall j :: 0 <= j < |ws| ==> Round(m, cs, w0, ws, cands, j)
    requires Labelled(m, cs[|ws|], if ws == [] then w0 else ws[|ws| - 1], w) && FarCorner(cs, w, cs[|ws|], c)
    ensures forall j :: 0 <= j <= |ws| ==> Round(m, cs, w0, ws + [w], cands + [c], j)
  {
    forall j | 0 <= j <= |ws|
      ensures Round(m, cs, w0, ws + [w], cands + [c], j)
    {
      if j < |ws| {
        RoundKept(m, cs, w0, ws, cands, w, c, j);
      } else {
        RoundAdded(m, cs, w0, ws, cands, w, c);
      }
    }
  }

  /** The loop of `furthest_corners`: one round per corner of `cs`, in order, each recorded in `candidates`. */
  method CornerRounds(g: MazeGrid, cs: seq<Position>) returns (candidates: seq<Candidate>, ghost ws: seq<Weights>)
    requires g.Valid() && g.shape.Rect? && |cs| == 4
    requires forall k :: 0 <= k < 4 ==> Topology.Contains(g.shape, cs[k])
    modifies g`weights, g.cells`weight
    ensures g.Valid()
    ensures |candidates| == 4 && |ws| == 4 && g.weights == ws[3]
    ensures forall i :: 0 <= i < 4 ==> Round(Graph(g.shape, g.links), cs, old(g.weights), ws, candidates, i)
  {
    ghost var m := Graph(g.shape, g.links);
    ghost var w0 := g.weights;
    candidates, ws := [], [];
    for i := 0 to 4
      invariant g.Valid() && m == Graph(g.shape, g.links)
      invariant |candidates| == i && |ws| == i
      invariant g.weights == if i == 0 then w0 else ws[i - 1]
      invariant forall j :: 0 <= j < i ==> Round(m, cs, w0, ws, candidates, j)
    {
      var c := CornerRound(g, cs, cs[i]);
      RoundsSnoc(m, cs, w0, ws, candidates, g.weights, c);
      candidates, ws := candidates + [c], ws + [g.weights];
    }
  }

  /**
   * `furthest_corners`: one round per corner in order, then the anchor and corner of the
   * candidate a stable sort by distance puts last (the last of largest distance; see
   * `StableSortLast`). Each round labels the grid afresh from its anchor.
   */
  method FurthestCorners(g: MazeGrid) returns (a: Position, b: Position, ghost cands: seq<Candidate>, ghost ws: seq<Weights>)
    requires g.Valid() && g.shape.Rect? && g.shape.width >= 1 && g.shape.height >= 1
    modifies g`weights, g.cells`weight
    ensures g.Valid()
    ensures |cands| == 4 && |ws| == 4 && g.weights == ws[3]
    ensures forall i :: 0 <= i < 4 ==> Round(Graph(g.shape, g.links), Corners(g.shape.width, g.shape.height), old(g.weights), ws, cands, i)
    ensures exists i: nat :: LastMax(Distances(cands), i) && a == cands[i].anchor && b == cands[i].corner
  {
    var cs := Corners(g.shape.width, g.shape.height);
    var candidates;
    candidates, ws := CornerRounds(g, cs);
    cands := candidates;
    var best := LastMaxIndex(Distances(candidates));
    a, b := candidates[best].anchor, candidates[best].corner;
  }
}
