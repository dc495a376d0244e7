/**
 * The links a generator adds, as a value: the sequence of `link` calls it makes,
 * each oriented from the cell already in the maze to the cell it brings in.
 */
module Growth {
  import opened Pos
  import opened Topology
  import opened LinkGraph

  /** One `grid.link(from, to)` call. */
  datatype Edge = Edge(from: Position, to: Position)

  /** Both ends of every edge are cells of `m`. */
  predicate Within(m: Links, es: seq<Edge>)
  {
    forall k :: 0 <= k < |es| ==> es[k].from in m && es[k].to in m
  }

  /** No calls leave the link map as it is. */
  lemma AddNone(m: Links)
    ensures Within(m, []) && AddAll(m, []) == m
  {
  }

  /** The link map after the calls `es`, in order. */
  function AddAll(m: Links, es: seq<Edge>): (r: Links)
    requires Within(m, es)
    ensures r.Keys == m.Keys
    decreases |es|
  {
    if es == [] then m
    else
      var last := es[|es| - 1];
      AddEdge(AddAll(m, es[..|es| - 1]), last.from, last.to)
  }

  /** Every edge joins a cell to one of its neighbours. */
  predicate NeighborEdges(s: Shape, es: seq<Edge>)
    requires WellFormed(s)
  {
    forall k :: 0 <= k < |es| ==> es[k].to in Neighbors(s, es[k].from)
  }

  /** A cell with a neighbour is a contained cell, so `link` accepts it. */
  lemma LinkableStep(s: Shape, p: Position, q: Position)
    requires WellFormed(s) && q in Neighbors(s, p)
    ensures Topology.Contains(s, p) && Topology.Contains(s, q)
    ensures p in LaidSet(s) && q in LaidSet(s)
  {
    NeighborsSymmetric(s, p, q);
    NeighborsContained(s, p, q);
    NeighborsContained(s, q, p);
    ContainedIsLaid(s, p);
    ContainedIsLaid(s, q);
  }

  /** The ends of every edge are laid-out cells. */
  predicate EdgesLaid(s: Shape, es: seq<Edge>)
  {
    forall k :: 0 <= k < |es| ==> es[k].from in LaidSet(s) && es[k].to in LaidSet(s)
  }

  /** The links so far: a forest hanging off `visited` whose every edge joins laid-out neighbours. */
  ghost predicate Grown(s: Shape, visited: set<Position>, edges: seq<Edge>)
    requires WellFormed(s)
  {
    Forest(visited, edges) && NeighborEdges(s, edges) && EdgesLaid(s, edges)
  }

  /** The cells the edges bring in. */
  function Heads(es: seq<Edge>): set<Position>
  {
    set k | 0 <= k < |es| :: es[k].to
  }

  /** The cell edge `k` brings in is one of the heads. */
  lemma HeadIn(es: seq<Edge>, k: nat)
    requires k < |es|
    ensures es[k].to in Heads(es)
  {
  }

  /** An edge that brings in a given head. */
  ghost function HeadIndex(es: seq<Edge>, p: Position): (k: nat)
    requires p in Heads(es)
    ensures k < |es| && es[k].to == p
  {
    var k :| 0 <= k < |es| && es[k].to == p; k
  }

  /** The cells in the maze once `es` is added to the cells `visited`. */
  function Reached(visited: set<Position>, es: seq<Edge>): set<Position>
  {
    visited + Heads(es)
  }

  /**
   * Each edge leaves the cells reached so far and enters a cell not yet reached: the
   * edges form a forest hanging off `visited`.
   */
  predicate Forest(visited: set<Position>, es: seq<Edge>)
  {
    forall k :: 0 <= k < |es| ==>
      es[k].from in Reached(visited, es[..k]) && es[k].to !in Reached(visited, es[..k])
  }

  lemma AddAllSnoc(m: Links, es: seq<Edge>, e: Edge)
    requires Within(m, es) && e.from in m && e.to in m
    ensures Within(m, es + [e])
    ensures AddAll(m, es + [e]) == AddEdge(AddAll(m, es), e.from, e.to)
  {
    assert (es + [e])[..|es|] == es;
  }

  lemma HeadsSnoc(es: seq<Edge>, e: Edge)
    ensures Heads(es + [e]) == Heads(es) + {e.to}
  {
    var r := es + [e];
    forall p | p in Heads(r)
      ensures p in Heads(es) + {e.to}
    {
      var k :| 0 <= k < |r| && r[k].to == p;
      if k < |es| {
        assert es[k].to == p;
      }
    }
    forall p | p in Heads(es)
      ensures p in Heads(r)
    {
      var k :| 0 <= k < |es| && es[k].to == p;
      assert r[k].to == p;
    }
    assert r[|es|].to == e.to;
  }

  /** A link from a reached cell to an unreached one extends the forest by that one cell. */
  lemma ForestSnoc(visited: set<Position>, es: seq<Edge>, e: Edge)
    requires Forest(visited, es)
    requires e.from in Reached(visited, es) && e.to !in Reached(visited, es)
    ensures Forest(visited, es + [e])
    ensures Reached(visited, es + [e]) == Reached(visited, es) + {e.to}
  {
    var r := es + [e];
    HeadsSnoc(es, e);
    forall k | 0 <= k < |r|
      ensures r[k].from in Reached(visited, r[..k]) && r[k].to !in Reached(visited, r[..k])
    {
      if k < |es| {
        assert r[..k] == es[..k];
      } else {
        assert r[..k] == es;
      }
    }
  }

  /**
   * A forest brings in one new cell per edge: its edges number exactly the cells it adds
   * (so a generator that reaches every cell from one start adds `cells - 1` links).
   */
  lemma {:induction false} ForestCount(visited: set<Position>, es: seq<Edge>)
    requires Forest(visited, es)
    ensures |Heads(es)| == |es|
    ensures Heads(es) !! visited
    decreases |es|
  {
    if es != [] {
      var front := es[..|es| - 1];
      var e := es[|es| - 1];
      assert es == front + [e];
      assert Forest(visited, front) by {
        forall k | 0 <= k < |front|
          ensures front[k].from in Reached(visited, front[..k]) && front[k].to !in Reached(visited, front[..k])
        {
          assert front[..k] == es[..k];
        }
      }
      ForestCount(visited, front);
      HeadsSnoc(front, e);
      assert es[..|es| - 1] == front;
      assert e.to !in Reached(visited, front);
    }
  }

  lemma {:induction false} AddAllAppend(m: Links, es: seq<Edge>, fs: seq<Edge>)
    requires Within(m, es) && Within(AddAll(m, es), fs)
    ensures Within(m, es + fs)
    ensures AddAll(m, es + fs) == AddAll(AddAll(m, es), fs)
    decreases |fs|
  {
    if fs == [] {
      assert es + fs == es;
    } else {
      var front := fs[..|fs| - 1];
      var f := fs[|fs| - 1];
      assert fs == front + [f];
      assert es + fs == (es + front) + [f];
      AddAllAppend(m, es, front);
      AddAllSnoc(m, es + front, f);
      AddAllSnoc(AddAll(m, es), front, f);
    }
  }

  lemma HeadsAppend(es: seq<Edge>, fs: seq<Edge>)
    ensures Heads(es + fs) == Heads(es) + Heads(fs)
  {
    var r := es + fs;
    forall p | p in Heads(r)
      ensures p in Heads(es) + Heads(fs)
    {
      var k :| 0 <= k < |r| && r[k].to == p;
      if k < |es| {
        assert es[k].to == p;
      } else {
        assert fs[k - |es|].to == p;
      }
    }
    forall p | p in Heads(es) + Heads(fs)
      ensures p in Heads(r)
    {
      if p in Heads(es) {
        var k :| 0 <= k < |es| && es[k].to == p;
        assert r[k].to == p;
      } else {
        var k :| 0 <= k < |fs| && fs[k].to == p;
        assert r[|es| + k].to == p;
      }
    }
  }

  /** A forest grown on from everything the first forest reached extends it. */
  lemma ForestAppend(visited: set<Position>, es: seq<Edge>, fs: seq<Edge>)
    requires Forest(visited, es) && Forest(Reached(visited, es), fs)
    ensures Forest(visited, es + fs)
    ensures Reached(visited, es + fs) == Reached(Reached(visited, es), fs)
  {
    var r := es + fs;
    HeadsAppend(es, fs);
    forall k | 0 <= k < |r|
      ensures r[k].from in Reached(visited, r[..k]) && r[k].to !in Reached(visited, r[..k])
    {
      if k < |es| {
        assert r[..k] == es[..k];
      } else {
        var j := k - |es|;
        assert r[..k] == es + fs[..j];
        HeadsAppend(es, fs[..j]);
        assert r[k] == fs[j];
      }
    }
  }

  lemma NeighborEdgesAppend(s: Shape, es: seq<Edge>, fs: seq<Edge>)
    requires WellFormed(s) && NeighborEdges(s, es) && NeighborEdges(s, fs)
    ensures NeighborEdges(s, es + fs)
  {
    var r := es + fs;
    forall k | 0 <= k < |r|
      ensures r[k].to in Neighbors(s, r[k].from)
    {
      if k >= |es| {
        assert r[k] == fs[k - |es|];
      }
    }
  }

  /** A neighbour edge out of the forest into a fresh cell keeps it a forest and reaches that cell. */
  lemma GrownSnoc(s: Shape, visited: set<Position>, edges: seq<Edge>, e: Edge)
    requires WellFormed(s) && Grown(s, visited, edges)
    requires e.from in Reached(visited, edges) && e.to !in Reached(visited, edges)
    requires e.to in Neighbors(s, e.from)
    ensures Grown(s, visited, edges + [e])
    ensures Reached(visited, edges + [e]) == Reached(visited, edges) + {e.to}
  {
    LinkableStep(s, e.from, e.to);
    ForestSnoc(visited, edges, e);
    NeighborEdgesAppend(s, edges, [e]);
    forall k | 0 <= k < |edges| + 1
      ensures (edges + [e])[k].from in LaidSet(s) && (edges + [e])[k].to in LaidSet(s)
    {
      if k < |edges| {
        assert (edges + [e])[k] == edges[k];
      }
    }
  }

  /** The edge joins `p` and `q`, in either direction. */
  predicate Joins(e: Edge, p: Position, q: Position)
  {
    e == Edge(p, q) || e == Edge(q, p)
  }

  /** Some call of `es` joins `p` and `q`. */
  predicate JoinedBy(es: seq<Edge>, p: Position, q: Position)
  {
    exists k :: 0 <= k < |es| && Joins(es[k], p, q)
  }

  lemma JoinedBySnoc(es: seq<Edge>, e: Edge, p: Position, q: Position)
    ensures JoinedBy(es + [e], p, q) <==> JoinedBy(es, p, q) || Joins(e, p, q)
  {
    var r := es + [e];
    if JoinedBy(es, p, q) {
      var k :| 0 <= k < |es| && Joins(es[k], p, q);
      assert r[k] == es[k];
    }
    if JoinedBy(r, p, q) {
      var k :| 0 <= k < |r| && Joins(r[k], p, q);
      if k < |es| {
        assert es[k] == r[k];
      }
    }
    assert r[|es|] == e;
  }

  /**
   * What the calls `es` do to the link map: `q` is linked to `p` afterwards exactly when
   * it was before or some call joined the two, in either direction.
   */
  lemma {:induction false} AddAllLinks(m: Links, es: seq<Edge>, p: Position, q: Position)
    requires Within(m, es) && p in m
    ensures q in AddAll(m, es)[p] <==> q in m[p] || JoinedBy(es, p, q)
    decreases |es|
  {
    if es != [] {
      var front := es[..|es| - 1];
      var e := es[|es| - 1];
      assert es == front + [e];
      AddAllLinks(m, front, p, q);
      JoinedBySnoc(front, e, p, q);
    }
  }

  /** The calls only add links, and only links between neighbours when every call joins neighbours. */
  lemma AddAllExtends(s: Shape, m: Links, es: seq<Edge>)
    requires WellFormed(s) && Within(m, es) && NeighborEdges(s, es)
    ensures Grows(m, AddAll(m, es)) && NewLinksAdjacent(s, m, AddAll(m, es))
  {
    var r := AddAll(m, es);
    forall p | p in m
      ensures m[p] <= r[p]
    {
      forall q | q in m[p]
        ensures q in r[p]
      {
        AddAllLinks(m, es, p, q);
      }
    }
    forall p, q | p in r && q in r[p] && (p !in m || q !in m[p])
      ensures q in Neighbors(s, p)
    {
      AddAllLinks(m, es, p, q);
      var k :| 0 <= k < |es| && Joins(es[k], p, q);
      if es[k] == Edge(q, p) {
        NeighborsSymmetric(s, q, p);
      }
    }
  }

  /** The calls keep the link map symmetric. */
  lemma {:induction false} AddAllKeepsSymmetric(m: Links, es: seq<Edge>)
    requires Within(m, es) && Symmetric(m)
    ensures Symmetric(AddAll(m, es))
    decreases |es|
  {
    if es != [] {
      var last := es[|es| - 1];
      AddAllKeepsSymmetric(m, es[..|es| - 1]);
      AddEdgeKeepsSymmetric(AddAll(m, es[..|es| - 1]), last.from, last.to);
    }
  }

  /** The calls `es` in reverse order, each with its ends swapped. */
  function Backward(es: seq<Edge>): (r: seq<Edge>)
    ensures |r| == |es|
    ensures forall j :: 0 <= j < |es| ==> r[j] == Edge(es[|es| - 1 - j].to, es[|es| - 1 - j].from)
  {
    if es == [] then [] else [Edge(es[|es| - 1].to, es[|es| - 1].from)] + Backward(es[..|es| - 1])
  }

  /** Reversing and swapping the calls joins the same pairs. */
  lemma BackwardJoins(es: seq<Edge>, p: Position, q: Position)
    ensures JoinedBy(Backward(es), p, q) <==> JoinedBy(es, p, q)
  {
    var r := Backward(es);
    if JoinedBy(es, p, q) {
      var k :| 0 <= k < |es| && Joins(es[k], p, q);
      assert Joins(r[|es| - 1 - k], p, q);
    }
    if JoinedBy(r, p, q) {
      var j :| 0 <= j < |r| && Joins(r[j], p, q);
      assert Joins(es[|es| - 1 - j], p, q);
    }
  }

  /** The order of the `link` calls and the direction of each do not matter to the link map. */
  lemma AddAllBackward(m: Links, es: seq<Edge>)
    requires Within(m, es)
    ensures Within(m, Backward(es))
    ensures AddAll(m, Backward(es)) == AddAll(m, es)
  {
    var r := Backward(es);
    BackwardWithin(m, es);
    var a, b := AddAll(m, r), AddAll(m, es);
    forall p | p in a
      ensures a[p] == b[p]
    {
      AddAllBackwardAt(m, es, p);
    }
    SameLinks(a, b);
  }

  /** Two link maps over the same cells that agree on every cell are equal. */
  lemma SameLinks(a: Links, b: Links)
    requires a.Keys == b.Keys && forall p :: p in a ==> a[p] == b[p]
    ensures a == b
  {
  }

  /** The reversed calls stay within the map. */
  lemma BackwardWithin(m: Links, es: seq<Edge>)
    requires Within(m, es)
    ensures Within(m, Backward(es))
  {
    var r := Backward(es);
    forall j | 0 <= j < |r|
      ensures r[j].from in m && r[j].to in m
    {
      assert r[j] == Edge(es[|es| - 1 - j].to, es[|es| - 1 - j].from);
    }
  }

  /** The reversed calls give cell `p` the same links. */
  lemma AddAllBackwardAt(m: Links, es: seq<Edge>, p: Position)
    requires Within(m, es) && Within(m, Backward(es)) && p in m
    ensures AddAll(m, Backward(es))[p] == AddAll(m, es)[p]
  {
    var r := Backward(es);
    forall q
      ensures q in AddAll(m, r)[p] <==> q in AddAll(m, es)[p]
    {
      AddAllLinks(m, r, p, q);
      AddAllLinks(m, es, p, q);
      BackwardJoins(es, p, q);
    }
  }


  /**
   * A forest, read off its edges: each edge enters a cell outside `visited` that no other
   * edge enters, from a cell of `visited` or one an earlier edge entered.
   */
  lemma ForestByOrder(visited: set<Position>, es: seq<Edge>)
    requires forall k :: 0 <= k < |es| ==> es[k].to !in visited
    requires forall k, l :: 0 <= l < k < |es| ==> es[l].to != es[k].to
    requires forall k :: 0 <= k < |es| ==>
      es[k].from in visited || exists l :: 0 <= l < k && es[l].to == es[k].from
    ensures Forest(visited, es)
  {
    forall k | 0 <= k < |es|
      ensures es[k].from in Reached(visited, es[..k]) && es[k].to !in Reached(visited, es[..k])
    {
      var front := es[..k];
      if es[k].from !in visited {
        var l :| 0 <= l < k && es[l].to == es[k].from;
        assert front[l].to == es[k].from;
      }
    }
  }
}
