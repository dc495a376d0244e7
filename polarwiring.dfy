/**
 * How `PolarGrid::_set_neighbors` fills in the ring neighbours: it visits the cells in
 * vector order, giving each cell outside the centre its ccw, cw and inward neighbours
 * and appending it to its parent's outward list. `Partial(s, q, i)` is what cell `q`
 * holds after the first `i` cells have been visited.
 */
module PolarWiring {
  import opened Pos
  import opened Opt
  import opened Topology

  /** Index of the first child of `q`, when `q` has children. */
  function ChildBase(s: Shape, q: Position): nat
    requires WellFormed(s) && s.Polar? && Laid(s, q) && q.row + 1 < |s.columnCounts|
  {
    Offset(s, q.row + 1) + q.col * Ratio(s, q.row + 1)
  }

  /** How many of `q`'s outward children lie among the first `i` cells. */
  function ChildrenBefore(s: Shape, q: Position, i: nat): (n: nat)
    requires WellFormed(s) && s.Polar? && Laid(s, q)
    ensures n <= |Outward(s, q)|
  {
    if q.row + 1 < |s.columnCounts| then
      var base := ChildBase(s, q);
      var k := Ratio(s, q.row + 1);
      if i <= base then 0 else if i - base >= k then k else i - base
    else 0
  }

  /** The neighbour fields of `q` once the first `i` cells have been visited. */
  function Partial(s: Shape, q: Position, i: nat): (a: Adjacency)
    requires WellFormed(s) && s.Polar? && Laid(s, q)
    ensures a.Ring?
  {
    var seen := q.row >= 1 && Index(s, q) < i;
    Ring(
      if seen then Some(Ccw(s, q)) else None,
      if seen then Some(Cw(s, q)) else None,
      if seen then Some(Inward(s, q)) else None,
      Outward(s, q)[..ChildrenBefore(s, q, i)])
  }

  /** The children of `q` occupy a block of `Ratio` consecutive slots inside the next ring's slots. */
  lemma ChildBlock(s: Shape, q: Position)
    requires WellFormed(s) && s.Polar? && Laid(s, q) && q.row + 1 < |s.columnCounts|
    ensures Offset(s, q.row + 1) <= ChildBase(s, q)
    ensures ChildBase(s, q) + Ratio(s, q.row + 1) <= Offset(s, q.row + 2)
  {
    var k := Ratio(s, q.row + 1);
    var n := s.columnCounts[q.row];
    MulMonotone(k, q.col + 1, n);
    assert (q.col + 1) * k == q.col * k + k;
    assert s.columnCounts[q.row + 1] == n * k;
    OffsetStep(s, q.row + 1);
    assert ChildBase(s, q) == Offset(s, q.row + 1) + q.col * k;
  }

  /** The slot `i` of a cell `p` outside the centre falls in `q`'s child block exactly when `q` is `p`'s parent. */
  lemma InChildBlock(s: Shape, p: Position, q: Position)
    requires WellFormed(s) && s.Polar? && Laid(s, p) && p.row >= 1
    requires Laid(s, q) && q.row + 1 < |s.columnCounts|
    ensures ChildBase(s, q) <= Index(s, p) < ChildBase(s, q) + Ratio(s, q.row + 1)
      <==> q == Inward(s, p)
  {
    ChildBlock(s, q);
    IndexInRange(s, p);
    var k := Ratio(s, q.row + 1);
    if q.row + 1 == p.row {
      assert k == Ratio(s, p.row);
      DivideByRatio(p.col, k, s.columnCounts[p.row - 1]);
      if q.col * k <= p.col < q.col * k + k {
        DivUnique(p.col, k, q.col, p.col - q.col * k);
      }
      if q == Inward(s, p) {
        assert q.col * k <= p.col < q.col * k + k;
      }
    } else if q.row + 1 < p.row {
      OffsetMonotone(s, q.row + 2, p.row);
    } else {
      OffsetMonotone(s, p.row + 1, q.row + 1);
    }
  }

  /** Before any cell is visited every cell holds the empty fields `PolarCell::new` gave it. */
  lemma PartialStart(s: Shape, q: Position)
    requires WellFormed(s) && s.Polar? && Laid(s, q)
    ensures Partial(s, q, 0) == Ring(None, None, None, [])
  {
    if q.row + 1 < |s.columnCounts| {
      ChildBlock(s, q);
      OffsetStep(s, 0);
    }
  }

  /** Once every cell is visited every cell holds its full neighbour fields. */
  lemma PartialEnd(s: Shape, q: Position)
    requires WellFormed(s) && s.Polar? && Laid(s, q)
    ensures Partial(s, q, CellCount(s)) == AdjacencyOf(s, q)
  {
    IndexInRange(s, q);
    if q.row + 1 < |s.columnCounts| {
      ChildBlock(s, q);
      OffsetMonotone(s, q.row + 2, RowCount(s));
    }
  }

  /** Visiting the cell `p` at slot `i` fills in `p`'s own fields and appends `p` to its parent's outward list, and nothing else. */
  lemma PartialStep(s: Shape, p: Position, q: Position, i: nat)
    requires WellFormed(s) && s.Polar? && Laid(s, p) && Laid(s, q) && Index(s, p) == i
    ensures p.row == 0 ==> Partial(s, q, i + 1) == Partial(s, q, i)
    ensures p.row >= 1 && q == p ==>
      Partial(s, q, i + 1) == Ring(Some(Ccw(s, p)), Some(Cw(s, p)), Some(Inward(s, p)), Partial(s, q, i).outward)
    ensures p.row >= 1 && q == Inward(s, p) ==>
      var a := Partial(s, q, i);
      Partial(s, q, i + 1) == Ring(a.ccw, a.cw, a.inward, a.outward + [p])
    ensures p.row >= 1 && q != p && q != Inward(s, p) ==> Partial(s, q, i + 1) == Partial(s, q, i)
  {
    if q.row + 1 < |s.columnCounts| {
      ChildBlock(s, q);
      IndexInRange(s, p);
      if p.row >= 1 {
        InChildBlock(s, p, q);
        if q == Inward(s, p) {
          var k := Ratio(s, p.row);
          DivideByRatio(p.col, k, s.columnCounts[p.row - 1]);
          var n := ChildrenBefore(s, q, i);
          assert n == p.col % k;
          assert Outward(s, q)[n] == p;
          assert Outward(s, q)[..n + 1] == Outward(s, q)[..n] + [p];
        }
      } else {
        OffsetStep(s, 0);
      }
    }
    if q != p {
      if Index(s, q) == i {
        IndexInjective(s, p, q);
      }
    }
  }

  /** Position `j` of `ps` is the position whose slot is `j`: the cell vector's positions, in order. */
  predicate Slotted(s: Shape, ps: seq<Position>)
  {
    forall j :: 0 <= j < |ps| ==> Laid(s, ps[j]) && Index(s, ps[j]) == j
  }

  /** The neighbour fields of the whole cell vector once its first `i` cells have been visited. */
  predicate WiredUpTo(s: Shape, ps: seq<Position>, adj: seq<Adjacency>, i: nat)
    requires WellFormed(s) && s.Polar? && Slotted(s, ps)
  {
    |adj| == |ps| && forall j :: 0 <= j < |ps| ==> adj[j] == Partial(s, ps[j], i)
  }

  /** A laid-out cell outside the centre has its parent laid out, at a slot before its own. */
  lemma ParentSlot(s: Shape, p: Position)
    requires WellFormed(s) && s.Polar? && Laid(s, p) && p.row >= 1
    ensures Laid(s, Inward(s, p)) && Index(s, Inward(s, p)) < Index(s, p)
  {
    ContainedIsLaid(s, p);
    InwardParent(s, p);
    ContainedIsLaid(s, Inward(s, p));
    IndexInRange(s, p);
    IndexInRange(s, Inward(s, p));
    OffsetMonotone(s, p.row, p.row);
  }

  /**
   * One visit of `_set_neighbors` as a value: the cell at slot `i` gets its ccw, cw and
   * inward fields, and its parent's outward list gets the cell appended.
   */
  function Wire(s: Shape, ps: seq<Position>, adj: seq<Adjacency>, i: nat): (r: seq<Adjacency>)
    requires WellFormed(s) && s.Polar? && Slotted(s, ps) && |adj| == |ps|
    requires i < |ps| && ps[i].row >= 1
    ensures |r| == |adj|
  {
    var p := ps[i];
    ParentSlot(s, p);
    var k := Index(s, Inward(s, p));
    var own := Ring(Some(Ccw(s, p)), Some(Cw(s, p)), Some(Inward(s, p)), if adj[i].Ring? then adj[i].outward else []);
    var parent := if adj[k].Ring? then adj[k].(outward := adj[k].outward + [p]) else adj[k];
    adj[i := own][k := parent]
  }

  /** Visiting the centre cell changes nothing. */
  lemma CentreStep(s: Shape, ps: seq<Position>, adj: seq<Adjacency>, i: nat)
    requires WellFormed(s) && s.Polar? && Slotted(s, ps) && i < |ps| && ps[i].row == 0
    requires WiredUpTo(s, ps, adj, i)
    ensures WiredUpTo(s, ps, adj, i + 1)
  {
    forall j | 0 <= j < |ps|
      ensures adj[j] == Partial(s, ps[j], i + 1)
    {
      PartialStep(s, ps[i], ps[j], i);
    }
  }

  /** `Wire` carries the fields from `i` visited cells to `i + 1`. */
  lemma WireStep(s: Shape, ps: seq<Position>, adj: seq<Adjacency>, i: nat)
    requires WellFormed(s) && s.Polar? && Slotted(s, ps) && i < |ps| && ps[i].row >= 1
    requires WiredUpTo(s, ps, adj, i)
    ensures WiredUpTo(s, ps, Wire(s, ps, adj, i), i + 1)
  {
    forall j | 0 <= j < |ps|
      ensures Wire(s, ps, adj, i)[j] == Partial(s, ps[j], i + 1)
    {
      WireStepAt(s, ps, adj, i, j);
    }
  }

  lemma WireStepAt(s: Shape, ps: seq<Position>, adj: seq<Adjacency>, i: nat, j: nat)
    requires WellFormed(s) && s.Polar? && Slotted(s, ps) && i < |ps| && ps[i].row >= 1
    requires |adj| == |ps| && j < |ps| && adj[j] == Partial(s, ps[j], i)
    requires adj[i] == Partial(s, ps[i], i)
    ensures Wire(s, ps, adj, i)[j] == Partial(s, ps[j], i + 1)
  {
    var p := ps[i];
    ParentSlot(s, p);
    var k := Index(s, Inward(s, p));
    var r := Wire(s, ps, adj, i);
    PartialStep(s, p, ps[j], i);
    if j == i {
      assert r[j] == Ring(Some(Ccw(s, p)), Some(Cw(s, p)), Some(Inward(s, p)), adj[i].outward);
    } else if j == k {
      IndexInjective(s, ps[j], Inward(s, p));
      assert r[j] == adj[k].(outward := adj[k].outward + [p]);
    } else {
      assert ps[j] != p && ps[j] != Inward(s, p);
      assert r[j] == adj[j];
    }
  }
}
