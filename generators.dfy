/** What the generators in `algorithms.rs` share: list filters, `_make_initial`, and when a walk is stuck. */
module Generators {
  import opened Pos
  import opened Opt
  import opened Topology
  import opened LinkGraph
  import opened Growth
  import opened Grids

  /** `iter().filter(..).collect()`: the entries of `ns` that lie in `keep`, in their order. */
  function Keep(ns: seq<Position>, keep: set<Position>): (r: seq<Position>)
    ensures forall q :: q in r <==> q in ns && q in keep
    ensures |r| <= |ns|
  {
    if ns == [] then []
    else (if ns[0] in keep then [ns[0]] else []) + Keep(ns[1..], keep)
  }

  /** The entries of `ns` outside `linked`, in order (`.filter(|p| !linked.contains(p))`). */
  function Outside(ns: seq<Position>, linked: set<Position>): (r: seq<Position>)
    ensures forall q :: q in r <==> q in ns && q !in linked
  {
    if ns == [] then []
    else (if ns[0] !in linked then [ns[0]] else []) + Outside(ns[1..], linked)
  }

  /** No position occurs twice in the list (as in a `LinkedHashSet`, or a list of writes made at most once each). */
  predicate Distinct(xs: seq<Position>)
  {
    forall i, j :: 0 <= i < j < |xs| ==> xs[i] != xs[j]
  }

  /** Filtering keeps the order: every entry kept is kept after the ones before it. */
  lemma {:induction false} KeepAll(ns: seq<Position>, keep: set<Position>)
    requires forall q :: q in ns ==> q in keep
    ensures Keep(ns, keep) == ns
  {
    if ns != [] {
      KeepAll(ns[1..], keep);
    }
  }

  /** The cells of a stack or path, as a set. */
  function Members(ps: seq<Position>): (r: set<Position>)
    ensures forall x :: x in r <==> x in ps
  {
    if ps == [] then {} else Members(ps[..|ps| - 1]) + {ps[|ps| - 1]}
  }

  /** Pushing a cell adds it to the members. */
  lemma MembersSnoc(ps: seq<Position>, x: Position)
    ensures Members(ps + [x]) == Members(ps) + {x}
  {
    assert (ps + [x])[..|ps|] == ps;
  }

  /** `retain(|c| c != x)`: the entries of `ns` other than `x`, in their order. */
  function Without(ns: seq<Position>, x: Position): (r: seq<Position>)
    ensures forall q :: q in r <==> q in ns && q != x
    ensures |r| <= |ns|
    ensures x in ns ==> |r| < |ns|
  {
    if ns == [] then []
    else (if ns[0] != x then [ns[0]] else []) + Without(ns[1..], x)
  }

  /** `_make_initial`: takes one element out of `unvisited`, or reports `None` when it is empty. */
  method MakeInitial(unvisited: set<Position>) returns (initial: Option<Position>, rest: set<Position>)
    ensures initial.None? <==> unvisited == {}
    ensures initial.Some? ==> initial.value in unvisited && rest == unvisited - {initial.value}
    ensures initial.None? ==> rest == unvisited
  {
    if unvisited == {} {
      return None, unvisited;
    }
    var p :| p in unvisited;
    return Some(p), unvisited - {p};
  }

  /** `has_links` on a link map: a contained cell with at least one link. */
  predicate LinkedCell(s: Shape, m: Links, p: Position)
    requires WellFormed(s)
  {
    Topology.Contains(s, p) && p in m && m[p] != {}
  }

  /** No link anywhere: the grid as constructed. */
  predicate Blank(m: Links)
  {
    forall p :: p in m ==> m[p] == {}
  }

  /** No neighbour of `p` is still unvisited: the walk from `p` is stuck. */
  predicate Exhausted(s: Shape, p: Position, unvisited: set<Position>)
    requires WellFormed(s)
  {
    forall q :: q in Neighbors(s, p) ==> q !in unvisited
  }

  /** Every cell of `visited` is stuck: nothing unvisited borders the visited region. */
  predicate Closed(s: Shape, visited: set<Position>, unvisited: set<Position>)
    requires WellFormed(s)
  {
    forall p :: p in visited ==> Exhausted(s, p, unvisited)
  }

  /** Cells stuck among more unvisited cells stay stuck when some of those get visited. */
  lemma ClosedShrinks(s: Shape, visited: set<Position>, unvisited: set<Position>, fewer: set<Position>)
    requires WellFormed(s) && Closed(s, visited, unvisited) && fewer <= unvisited
    ensures Closed(s, visited, fewer)
  {
  }

  /** Two regions of stuck cells make a region of stuck cells. */
  lemma ClosedUnion(s: Shape, a: set<Position>, b: set<Position>, unvisited: set<Position>)
    requires WellFormed(s) && Closed(s, a, unvisited) && Closed(s, b, unvisited)
    ensures Closed(s, a + b, unvisited)
  {
  }

  /** A subset as large as the whole set is the whole set. */
  lemma SubsetFull(a: set<Position>, b: set<Position>)
    requires a <= b && |a| == |b|
    ensures a == b
  {
    if a != b {
      assert !(b <= a);
      var x :| x in b && x !in a;
      SubsetCard(a, b - {x});
    }
  }

  /** A subset of a finite set has no more elements. */
  lemma {:induction false} SubsetCard(a: set<Position>, b: set<Position>)
    requires a <= b
    ensures |a| <= |b|
    decreases |b|
  {
    if a != {} {
      var x :| x in a;
      SubsetCard(a - {x}, b - {x});
    }
  }

  /** The first `k + 1` entries are the first `k` and then entry `k`. */
  lemma PrefixSnoc<T>(xs: seq<T>, k: nat)
    requires k < |xs|
    ensures xs[..k + 1] == xs[..k] + [xs[k]]
  {
  }

  /** A nonempty sequence is its front and then its last entry. */
  lemma SplitLast<T>(xs: seq<T>)
    requires |xs| > 0
    ensures xs == xs[..|xs| - 1] + [xs[|xs| - 1]]
  {
  }

  /** One `grid.link(a, b)` after the calls `done`: the link map takes in one more call. */
  method LinkEdge(g: MazeGrid, ghost m: Links, ghost done: seq<Edge>, a: Position, b: Position)
    requires g.Valid() && Within(m, done) && g.links == AddAll(m, done)
    requires Topology.Contains(g.shape, a) && Topology.Contains(g.shape, b)
    modifies g`links, g.cells`links
    ensures g.Valid() && Within(m, done + [Edge(a, b)]) && g.links == AddAll(m, done + [Edge(a, b)])
  {
    ContainedIsLaid(g.shape, a);
    ContainedIsLaid(g.shape, b);
    AddAllSnoc(m, done, Edge(a, b));
    g.Link(a, b);
  }

  /**
   * `for (p1, p2) in links.iter() { grid.link(p1, p2) }`: the buffered calls, in order.
   * Every end must be contained, since `link` unwraps both lookups.
   */
  method ApplyLinks(g: MazeGrid, es: seq<Edge>)
    requires g.Valid()
    requires forall k :: 0 <= k < |es| ==> Topology.Contains(g.shape, es[k].from) && Topology.Contains(g.shape, es[k].to)
    modifies g`links, g.cells`links
    ensures g.Valid()
    ensures Within(old(g.links), es) && g.links == AddAll(old(g.links), es)
  {
    ghost var m := g.links;
    for k := 0 to |es|
      invariant g.Valid() && Within(m, es[..k]) && g.links == AddAll(m, es[..k])
    {
      PrefixSnoc(es, k);
      LinkEdge(g, m, es[..k], es[k].from, es[k].to);
    }
    assert es[..|es|] == es;
  }
}
