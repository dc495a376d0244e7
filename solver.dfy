/**
 * `solver.rs`: `dijkstra` labels every cell reachable from a start cell with its distance in
 * links (a breadth-first search, one layer per round), `solve` walks back from a target along
 * links of decreasing weight and marks the cells it passes, and `furthest_on_rim` and
 * `furthest_corners` read the labels to pick cells far apart.
 */
module Solver {
  import opened Pos
  import opened Opt
  import opened Topology
  import opened LinkGraph
  import opened Generators
  import opened Cells
  import opened Grids

  type Weights = map<Position, nat>

  // ---------------------------------------------------------------------------
  // Breadth-first layers of a link map

  /** The links the search can follow: those of the cells `get_mut` finds. */
  ghost function Graph(s: Shape, m: Links): (r: Links)
    requires WellFormed(s)
    ensures forall p :: p in r <==> p in m && Contains(s, p)
    ensures forall p :: p in r ==> r[p] == m[p]
  {
    map p | p in m && Contains(s, p) :: m[p]
  }

  /** Links join contained cells in both directions, so the searchable links are closed and symmetric. */
  lemma GraphSymmetric(s: Shape, m: Links)
    requires WellFormed(s) && Symmetric(m)
    requires forall p, q :: p in m && q in m[p] ==> Contains(s, p)
    ensures Symmetric(Graph(s, m))
  {
    var r := Graph(s, m);
    forall p, q | p in r && q in r[p]
      ensures q in r && p in r[q]
    {
      assert q in m && p in m[q];
    }
  }

  /** The cells one link away from the cells of `from`. */
  ghost function Step(m: Links, from: set<Position>): set<Position>
  {
    set p, q | p in from && p in m && q in m[p] :: q
  }

  /** The cells at most `d` links away from `start`. */
  ghost function Ball(m: Links, start: Position, d: nat): set<Position>
  {
    if d == 0 then {start} else Ball(m, start, d - 1) + Step(m, Ball(m, start, d - 1))
  }

  /** The cells fewer than `d` links away from `start`. */
  ghost function Before(m: Links, start: Position, d: nat): set<Position>
  {
    if d == 0 then {} else Ball(m, start, d - 1)
  }

  /** The cells exactly `d` links away from `start`. */
  ghost function Layer(m: Links, start: Position, d: nat): set<Position>
  {
    Ball(m, start, d) - Before(m, start, d)
  }

  ghost predicate Reachable(m: Links, start: Position, p: Position)
  {
    exists d :: p in Ball(m, start, d)
  }

  lemma {:induction false} BallMono(m: Links, start: Position, a: nat, b: nat)
    requires a <= b
    ensures Ball(m, start, a) <= Ball(m, start, b)
    decreases b
  {
    if a < b {
      BallMono(m, start, a, b - 1);
    }
  }

  /** The search never leaves the cells of the map (and the start). */
  lemma {:induction false} BallWithin(m: Links, start: Position, d: nat)
    requires Symmetric(m)
    ensures Ball(m, start, d) <= m.Keys + {start}
  {
    if d > 0 {
      BallWithin(m, start, d - 1);
      forall q | q in Step(m, Ball(m, start, d - 1))
        ensures q in m
      {
        var p :| p in Ball(m, start, d - 1) && p in m && q in m[p];
      }
    }
  }

  /** Once a round adds nothing, no later round does. */
  lemma {:induction false} BallStable(m: Links, start: Position, d: nat, e: nat)
    requires d > 0 && Ball(m, start, d) == Ball(m, start, d - 1) && d - 1 <= e
    ensures Ball(m, start, e) == Ball(m, start, d - 1)
    decreases e
  {
    if e >= d {
      BallStable(m, start, d, e - 1);
    }
  }

  /** Every earlier layer lies in the cells seen before round `d`. */
  lemma LayersBefore(m: Links, start: Position, d: nat)
    ensures forall e: nat, p :: e < d && p in Layer(m, start, e) ==> p in Before(m, start, d)
  {
    forall e: nat, p | e < d && p in Layer(m, start, e)
      ensures p in Before(m, start, d)
    {
      BallMono(m, start, e, d - 1);
    }
  }

  /** A cell lies in at most one layer. */
  lemma LayerUnique(m: Links, start: Position, a: nat, b: nat, p: Position)
    requires p in Layer(m, start, a) && p in Layer(m, start, b)
    ensures a == b
  {
    if a < b {
      BallMono(m, start, a, b - 1);
    } else if b < a {
      BallMono(m, start, b, a - 1);
    }
  }

  /** A cell within `n` links lies in some layer up to `n`. */
  lemma {:induction false} LayerOf(m: Links, start: Position, n: nat, p: Position) returns (e: nat)
    requires p in Ball(m, start, n)
    ensures e <= n && p in Layer(m, start, e)
  {
    if n == 0 || p !in Ball(m, start, n - 1) {
      e := n;
    } else {
      e := LayerOf(m, start, n - 1, p);
    }
  }

  /** A link never skips a layer: from layer `e` it reaches layer `e - 1`, `e` or `e + 1`. */
  lemma LinkSpansLayers(m: Links, start: Position, e: nat, f: nat, p: Position, q: Position)
    requires Symmetric(m) && p in m && q in m[p]
    requires p in Layer(m, start, e) && q in Layer(m, start, f)
    ensures e <= f + 1 && f <= e + 1
  {
    LinkClimbsOne(m, start, e, f, p, q);
    assert q in m && p in m[q];
    LinkClimbsOne(m, start, f, e, q, p);
  }

  /** A link from a cell within `e` links reaches a cell within `e + 1`. */
  lemma LinkReaches(m: Links, start: Position, e: nat, p: Position, q: Position)
    requires p in Ball(m, start, e) && p in m && q in m[p]
    ensures q in Ball(m, start, e + 1)
  {
    assert q in Step(m, Ball(m, start, e));
  }

  /** Following a link from layer `e` reaches no layer beyond `e + 1`. */
  lemma LinkClimbsOne(m: Links, start: Position, e: nat, f: nat, p: Position, q: Position)
    requires p in m && q in m[p] && p in Layer(m, start, e) && q in Layer(m, start, f)
    ensures f <= e + 1
  {
    LinkReaches(m, start, e, p, q);
    if f > e + 1 {
      BallMono(m, start, e + 1, f - 1);
    }
  }

  /** A cell of a later layer has a link into the layer before it. */
  lemma LayerHasParent(m: Links, start: Position, e: nat, p: Position) returns (q: Position)
    requires Symmetric(m) && e > 0 && p in Layer(m, start, e)
    ensures p in m && q in m[p] && q in Layer(m, start, e - 1)
  {
    var r :| r in Ball(m, start, e - 1) && r in m && p in m[r];
    q := r;
  }

  // ---------------------------------------------------------------------------
  // Layers are distances along links

  /** Consecutive cells of `xs` are linked. */
  ghost predicate Walk(m: Links, xs: seq<Position>)
  {
    forall i :: 0 <= i < |xs| - 1 ==> xs[i] in m && xs[i + 1] in m[xs[i]]
  }

  /** `xs` is a walk along links from `start` to `p`. */
  ghost predicate Joins(m: Links, start: Position, p: Position, xs: seq<Position>)
  {
    |xs| >= 1 && xs[0] == start && xs[|xs| - 1] == p && Walk(m, xs)
  }

  /** The end of a walk of at most `d + 1` cells is within `d` links of its first cell. */
  lemma {:induction false} WalkInBall(m: Links, start: Position, p: Position, xs: seq<Position>, d: nat)
    requires Joins(m, start, p, xs) && |xs| <= d + 1
    ensures p in Ball(m, start, d)
    decreases |xs|
  {
    if |xs| == 1 {
      BallMono(m, start, 0, d);
    } else {
      var ys := xs[..|xs| - 1];
      var r := ys[|ys| - 1];
      assert Joins(m, start, r, ys) by {
        forall i | 0 <= i < |ys| - 1
          ensures ys[i] in m && ys[i + 1] in m[ys[i]]
        {
          assert ys[i] == xs[i] && ys[i + 1] == xs[i + 1];
        }
      }
      WalkInBall(m, start, r, ys, d - 1);
      assert xs[|xs| - 2] == r && r in m && p in m[r];
    }
  }

  /** Every cell within `d` links is the end of a walk of at most `d + 1` cells. */
  lemma {:induction false} BallWalk(m: Links, start: Position, p: Position, d: nat) returns (xs: seq<Position>)
    requires p in Ball(m, start, d)
    ensures Joins(m, start, p, xs) && |xs| <= d + 1
    decreases d
  {
    if d == 0 || p in Ball(m, start, d - 1) {
      if d == 0 {
        xs := [start];
      } else {
        xs := BallWalk(m, start, p, d - 1);
      }
    } else {
      var r :| r in Ball(m, start, d - 1) && r in m && p in m[r];
      var ys := BallWalk(m, start, r, d - 1);
      xs := ys + [p];
      forall i | 0 <= i < |xs| - 1
        ensures xs[i] in m && xs[i + 1] in m[xs[i]]
      {
        if i < |ys| - 1 {
          assert xs[i] == ys[i] && xs[i + 1] == ys[i + 1];
        } else {
          assert xs[i] == r && xs[i + 1] == p;
        }
      }
    }
  }

  /**
   * Layer `d` holds exactly the cells whose shortest walk from `start` has `d` links: there is
   * a walk of `d + 1` cells, and none shorter.
   */
  lemma LayerIsDistance(m: Links, start: Position, p: Position, d: nat)
    ensures p in Layer(m, start, d) <==>
      (exists xs :: Joins(m, start, p, xs) && |xs| == d + 1) &&
      (forall xs :: Joins(m, start, p, xs) ==> |xs| >= d + 1)
  {
    if p in Layer(m, start, d) {
      var xs := BallWalk(m, start, p, d);
      forall ys | Joins(m, start, p, ys)
        ensures |ys| >= d + 1
      {
        if |ys| < d + 1 {
          WalkInBall(m, start, p, ys, d - 1);
        }
      }
      assert |xs| == d + 1;
    }
    if (exists xs :: Joins(m, start, p, xs) && |xs| == d + 1) &&
       (forall xs :: Joins(m, start, p, xs) ==> |xs| >= d + 1)
    {
      var xs :| Joins(m, start, p, xs) && |xs| == d + 1;
      WalkInBall(m, start, p, xs, d);
      if d > 0 && p in Ball(m, start, d - 1) {
        var ys := BallWalk(m, start, p, d - 1);
      }
    }
  }

  // ---------------------------------------------------------------------------
  // dijkstra

  /** `p` lies in layer `d`. */
  ghost predicate InLayer(m: Links, start: Position, d: nat, p: Position)
  {
    p in Layer(m, start, d)
  }

  /** Each cell of the map weighs the number of its layer: what `Labelled` says of the reachable cells. */
  ghost predicate LayerWeighed(m: Links, start: Position, w: Weights)
  {
    forall d: nat, p :: InLayer(m, start, d, p) && p in m ==> p in w && w[p] == d
  }

  /**
   * What `dijkstra` leaves behind: the same cells carry weights; a cell of the map in layer `d`
   * weighs `d`; every other cell keeps its old weight.
   */
  ghost predicate Labelled(m: Links, start: Position, w0: Weights, w: Weights)
  {
    && w.Keys == w0.Keys
    && LayerWeighed(m, start, w)
    && (forall p :: p in w && !(p in m && Reachable(m, start, p)) ==> w[p] == w0[p])
  }

  /** The weights so far: each layer below `d` weighs its number, and cells not visited keep their old weight. */
  ghost predicate LabelledBelow(m: Links, start: Position, w0: Weights, w: Weights, d: nat, visited: set<Position>)
  {
    && w.Keys == w0.Keys
    && (forall e: nat, p :: e < d && p in m && p in Layer(m, start, e) ==> p in w && w[p] == e)
    && (forall p :: p in w && !(p in m && p in visited) ==> w[p] == w0[p])
  }

  /** Between two rounds: `visited` holds the cells before round `d`, and `front` adds those of round `d`. */
  ghost predicate Between(m: Links, start: Position, w0: Weights, w: Weights, d: nat, front: seq<Position>, visited: set<Position>)
  {
    && visited == Before(m, start, d)
    && Before(m, start, d) + Members(front) == Ball(m, start, d)
    && LabelledBelow(m, start, w0, w, d, visited)
  }

  /** Within round `d`, once the first `i` entries of `front` are scanned and `next` collected. */
  ghost predicate Scanning(m: Links, start: Position, w0: Weights, w: Weights, d: nat, front: seq<Position>, i: nat,
                           visited: set<Position>, next: seq<Position>)
  {
    Queued(m, start, d, front, i, visited, next) && Weighed(m, start, w0, w, d, visited)
  }

  /** The visited cells and the queue within round `d`: every link out of a cell visited in this round is visited or queued. */
  ghost predicate Queued(m: Links, start: Position, d: nat, front: seq<Position>, i: nat, visited: set<Position>, next: seq<Position>)
  {
    && i <= |front|
    && Before(m, start, d) + Members(front) == Ball(m, start, d)
    && visited == Before(m, start, d) + Members(front[..i])
    && Members(next) <= Step(m, Ball(m, start, d))
    && (forall p, q :: p in visited && p !in Before(m, start, d) && p in m && q in m[p] ==> q in visited || q in next)
    && (visited == Before(m, start, d) ==> next == [])
  }

  /** The weights within round `d`: the cells visited in this round weigh `d`. */
  ghost predicate Weighed(m: Links, start: Position, w0: Weights, w: Weights, d: nat, visited: set<Position>)
  {
    && LabelledBelow(m, start, w0, w, d, visited)
    && (forall p :: p in m && p in visited && p !in Before(m, start, d) ==> p in w && w[p] == d)
  }

  lemma DijkstraStart(m: Links, start: Position, w0: Weights)
    ensures Between(m, start, w0, w0, 0, [start], {})
  {
    assert Members([start]) == {start};
  }

  lemma ScanStart(m: Links, start: Position, w0: Weights, w: Weights, d: nat, front: seq<Position>, visited: set<Position>)
    requires Between(m, start, w0, w, d, front, visited)
    ensures Scanning(m, start, w0, w, d, front, 0, visited, [])
  {
    assert front[..0] == [];
  }

  lemma PrefixMembers(front: seq<Position>, i: nat)
    requires i < |front|
    ensures Members(front[..i + 1]) == Members(front[..i]) + {front[i]}
  {
    assert front[..i + 1][..i] == front[..i];
  }

  /** An entry already visited is skipped. */
  lemma ScanSkip(m: Links, start: Position, w0: Weights, w: Weights, d: nat, front: seq<Position>, i: nat,
                 visited: set<Position>, next: seq<Position>)
    requires Scanning(m, start, w0, w, d, front, i, visited, next) && i < |front| && front[i] in visited
    ensures Scanning(m, start, w0, w, d, front, i + 1, visited, next)
  {
    PrefixMembers(front, i);
  }

  /** An entry not yet visited is visited; if it has a cell, that cell weighs `d` and its unvisited links are queued. */
  lemma ScanVisit(m: Links, start: Position, w0: Weights, w: Weights, d: nat, front: seq<Position>, i: nat,
                  visited: set<Position>, next: seq<Position>, w': Weights, next': seq<Position>)
    requires Scanning(m, start, w0, w, d, front, i, visited, next) && i < |front| && front[i] !in visited
    requires m.Keys <= w.Keys
    requires front[i] in m ==> w' == w[front[i] := d] && next' == next + Outside(Ascending(m[front[i]]), visited + {front[i]})
    requires front[i] !in m ==> w' == w && next' == next
    ensures Scanning(m, start, w0, w', d, front, i + 1, visited + {front[i]}, next')
  {
    VisitQueued(m, start, d, front, i, visited, next, next');
    VisitWeighed(m, start, w0, w, d, front[i], visited, w');
  }

  lemma VisitQueued(m: Links, start: Position, d: nat, front: seq<Position>, i: nat,
                    visited: set<Position>, next: seq<Position>, next': seq<Position>)
    requires Queued(m, start, d, front, i, visited, next) && i < |front| && front[i] !in visited
    requires front[i] in m ==> next' == next + Outside(Ascending(m[front[i]]), visited + {front[i]})
    requires front[i] !in m ==> next' == next
    ensures Queued(m, start, d, front, i + 1, visited + {front[i]}, next')
  {
    var pos := front[i];
    PrefixMembers(front, i);
    assert pos in Ball(m, start, d);
    if pos in m {
      forall q | q in Members(next')
        ensures q in Step(m, Ball(m, start, d))
      {
        if q !in Members(next) {
          assert pos in Ball(m, start, d) && pos in m && q in m[pos];
        }
      }
    }
  }

  lemma VisitWeighed(m: Links, start: Position, w0: Weights, w: Weights, d: nat, pos: Position,
                     visited: set<Position>, w': Weights)
    requires Weighed(m, start, w0, w, d, visited) && pos !in visited && Before(m, start, d) <= visited
    requires m.Keys <= w.Keys
    requires pos in m ==> w' == w[pos := d]
    requires pos !in m ==> w' == w
    ensures Weighed(m, start, w0, w', d, visited + {pos})
  {
    LayersBefore(m, start, d);
  }

  /** A round ends with every cell up to `d` visited and the cells of round `d + 1` queued. */
  lemma ScanEnd(m: Links, start: Position, w0: Weights, w: Weights, d: nat, front: seq<Position>,
                visited: set<Position>, next: seq<Position>, d': nat)
    requires Symmetric(m) && Scanning(m, start, w0, w, d, front, |front|, visited, next) && d' == d + 1
    ensures Between(m, start, w0, w, d', next, visited)
    ensures Before(m, start, d) <= visited <= m.Keys + {start}
    ensures visited == Before(m, start, d) ==> next == []
  {
    EndQueued(m, start, d, front, visited, next);
    EndWeighed(m, start, w0, w, d, visited);
    BallWithin(m, start, d);
  }

  lemma EndQueued(m: Links, start: Position, d: nat, front: seq<Position>, visited: set<Position>, next: seq<Position>)
    requires Queued(m, start, d, front, |front|, visited, next)
    ensures visited == Ball(m, start, d) == Before(m, start, d + 1)
    ensures Before(m, start, d + 1) + Members(next) == Ball(m, start, d + 1)
  {
    assert front[..|front|] == front;
    forall q | q in Step(m, Ball(m, start, d)) && q !in Ball(m, start, d)
      ensures q in next
    {
      var p :| p in Ball(m, start, d) && p in m && q in m[p];
    }
  }

  lemma EndWeighed(m: Links, start: Position, w0: Weights, w: Weights, d: nat, visited: set<Position>)
    requires Weighed(m, start, w0, w, d, visited) && Layer(m, start, d) <= visited
    ensures LabelledBelow(m, start, w0, w, d + 1, visited)
  {
  }

  /** Once a round adds nothing, no later round adds anything either. */
  lemma NoLaterLayers(m: Links, start: Position, d: nat, e: nat)
    requires d > 0 && Ball(m, start, d) == Ball(m, start, d - 1) && e >= d
    ensures Ball(m, start, e) == Ball(m, start, e - 1)
  {
    BallStable(m, start, d, e);
    BallStable(m, start, d, e - 1);
  }

  /** An empty front ends the search with every reachable cell labelled. */
  lemma Finish(m: Links, start: Position, w0: Weights, w: Weights, d: nat, visited: set<Position>)
    requires Between(m, start, w0, w, d, [], visited)
    ensures Labelled(m, start, w0, w)
  {
    assert Members([]) == {};
    assert d > 0;
    forall e: nat, p | InLayer(m, start, e, p) && p in m
      ensures p in w && w[p] == e
    {
      if e >= d {
        NoLaterLayers(m, start, d, e);
        assert false;
      }
    }
  }

  /** Every cell the search can visit has a weight. */
  lemma GraphWeighed(g: MazeGrid, m: Links)
    requires g.LinksMirrored() && g.WeightsMirrored() && m == Graph(g.shape, g.links)
    ensures m.Keys <= g.weights.Keys
  {
    forall p | p in m
      ensures p in g.weights
    {
      ContainedIsLaid(g.shape, p);
    }
  }

  /**
   * The visit of one cell: if the grid has a cell at `pos`, it takes weight `dist` and its
   * links outside `visited` are returned in ascending order; otherwise nothing changes.
   */
  method Visit(g: MazeGrid, ghost m: Links, pos: Position, dist: nat, visited: set<Position>) returns (queued: seq<Position>)
    requires g.Valid() && m == Graph(g.shape, g.links)
    modifies g`weights, g.cells`weight
    ensures g.Valid()
    ensures pos in m ==> g.weights == old(g.weights)[pos := dist] && queued == Outside(Ascending(m[pos]), visited)
    ensures pos !in m ==> g.weights == old(g.weights) && queued == []
  {
    queued := [];
    var found := g.Get(pos);
    if found.Some? {
      var cell := found.value;
      ContainedIsLaid(g.shape, pos);
      assert cell.links == m[pos];
      g.UpdateWeightAt(pos, dist);
      queued := Outside(Ascending(cell.links), visited);
    }
  }

  /**
   * One entry of the front: an entry already visited is skipped; otherwise it is visited and,
   * if the grid has its cell, that cell takes weight `dist` and its links not yet visited are
   * queued in ascending order.
   */
  method Expand(g: MazeGrid, ghost m: Links, start: Position, ghost w0: Weights, dist: nat, front: seq<Position>, i: nat,
                visited: set<Position>, next: seq<Position>)
    returns (visited': set<Position>, next': seq<Position>)
    requires g.Valid() && m == Graph(g.shape, g.links)
    requires i < |front| && Scanning(m, start, w0, g.weights, dist, front, i, visited, next)
    modifies g`weights, g.cells`weight
    ensures g.Valid()
    ensures Scanning(m, start, w0, g.weights, dist, front, i + 1, visited', next')
  {
    var pos := front[i];
    if pos in visited {
      ScanSkip(m, start, w0, g.weights, dist, front, i, visited, next);
      return visited, next;
    }
    visited' := visited + {pos};
    ghost var w := g.weights;
    GraphWeighed(g, m);
    var queued := Visit(g, m, pos, dist, visited');
    next' := next + queued;
    ScanVisit(m, start, w0, w, dist, front, i, visited, next, g.weights, next');
  }

  /** The entries of `order` not yet visited, counted with repetition: what bounds the rounds of `dijkstra`. */
  ghost function Unvisited(order: seq<Position>, visited: set<Position>): nat
  {
    if order == [] then 0
    else Unvisited(order[..|order| - 1], visited) + (if order[|order| - 1] in visited then 0 else 1)
  }

  /** Visiting more cells never raises the count. */
  lemma {:induction false} UnvisitedMono(order: seq<Position>, visited: set<Position>, visited': set<Position>)
    requires visited <= visited'
    ensures Unvisited(order, visited') <= Unvisited(order, visited)
    decreases |order|
  {
    if order != [] {
      UnvisitedMono(order[..|order| - 1], visited, visited');
    }
  }

  /** Visiting an entry of `order` lowers the count. */
  lemma {:induction false} UnvisitedDrops(order: seq<Position>, visited: set<Position>, visited': set<Position>, x: Position)
    requires visited <= visited' && x in order && x in visited' && x !in visited
    ensures Unvisited(order, visited') < Unvisited(order, visited)
    decreases |order|
  {
    var init := order[..|order| - 1];
    UnvisitedMono(init, visited, visited');
    if x != order[|order| - 1] {
      assert x in init;
      UnvisitedDrops(init, visited, visited', x);
    }
  }

  /** A round either visits a new cell of `order`, lowering the count, or ends the search. */
  lemma Shrinks(order: seq<Position>, visited: set<Position>, visited': set<Position>, next: seq<Position>)
    requires visited <= visited' && (forall p :: p in visited' ==> p in order) && (visited' == visited ==> next == [])
    ensures Unvisited(order, visited') <= Unvisited(order, visited)
    ensures Unvisited(order, visited') < Unvisited(order, visited) || next == []
  {
    UnvisitedMono(order, visited, visited');
    if visited' != visited {
      var x :| x in visited' && x !in visited;
      UnvisitedDrops(order, visited, visited', x);
    }
  }

  /** One round of `dijkstra`: scan the front, labelling its new cells with `dist`, and collect the next front. */
  method Round(g: MazeGrid, ghost m: Links, start: Position, ghost w0: Weights, dist: nat, front: seq<Position>,
               visited: set<Position>, ghost order: seq<Position>)
    returns (next: seq<Position>, visited': set<Position>, dist': nat)
    requires g.Valid() && m == Graph(g.shape, g.links) && Symmetric(m)
    requires Between(m, start, w0, g.weights, dist, front, visited)
    requires start in order && forall p :: p in m ==> p in order
    modifies g`weights, g.cells`weight
    ensures g.Valid()
    ensures dist' == dist + 1 && Between(m, start, w0, g.weights, dist', next, visited')
    ensures Unvisited(order, visited') <= Unvisited(order, visited)
    ensures Unvisited(order, visited') < Unvisited(order, visited) || next == []
  {
    ScanStart(m, start, w0, g.weights, dist, front, visited);
    next, visited' := [], visited;
    for i := 0 to |front|
      invariant g.Valid()
      invariant Scanning(m, start, w0, g.weights, dist, front, i, visited', next)
    {
      visited', next := Expand(g, m, start, w0, dist, front, i, visited', next);
    }
    dist' := dist + 1;
    ScanEnd(m, start, w0, g.weights, dist, front, visited', next, dist');
    Shrinks(order, visited, visited', next);
  }

  /** The positions of `cells`, in order. */
  ghost function PositionsOf(cells: seq<Cell>): (r: seq<Position>)
    ensures |r| == |cells| && forall j :: 0 <= j < |cells| ==> r[j] == cells[j].pos
  {
    if cells == [] then [] else PositionsOf(cells[..|cells| - 1]) + [cells[|cells| - 1].pos]
  }

  /** Every cell of the grid, and the start, is listed in `PositionsOf(g.cells) + [start]`. */
  lemma Enumerated(g: MazeGrid, m: Links, start: Position, order: seq<Position>)
    requires g.LinksMirrored() && m == Graph(g.shape, g.links) && order == PositionsOf(g.cells) + [start]
    ensures start in order && forall p :: p in m ==> p in order
  {
    g.EveryLaidHasCell();
    forall p | p in m
      ensures p in order
    {
      assert order[Index(g.shape, p)] == p;
    }
    assert order[|order| - 1] == start;
  }

  /**
   * `dijkstra`: a breadth-first search from `start` along links. Every cell reachable from
   * `start` ends up weighing its distance in links (`LayerIsDistance`); every other weight,
   * and every link and mark, is left as it was.
   */
  method Dijkstra(g: MazeGrid, start: Position)
    requires g.Valid()
    modifies g`weights, g.cells`weight
    ensures g.Valid()
    ensures Labelled(Graph(g.shape, g.links), start, old(g.weights), g.weights)
  {
    ghost var m := Graph(g.shape, g.links);
    GraphSymmetric(g.shape, g.links);
    ghost var w0 := g.weights;
    ghost var order := PositionsOf(g.cells) + [start];
    Enumerated(g, m, start, order);
    var visited: set<Position> := {};
    var front := [start];
    var dist: nat := 0;
    DijkstraStart(m, start, w0);
    while front != []
      invariant g.Valid() && Between(m, start, w0, g.weights, dist, front, visited)
      decreases Unvisited(order, visited), |front|
    {
      var next, visited', dist' := Round(g, m, start, w0, dist, front, visited, order);
      front, visited, dist := next, visited', dist';
    }
    Finish(m, start, w0, g.weights, dist, visited);
  }

  // ---------------------------------------------------------------------------
  // solve

  /**
   * `r` is where `solve` goes from `p` under weights `w`: the first link of `p`, in ascending
   * order, whose cell weighs less than `p`, or `None` when no link does or `p` has no cell.
   */
  ghost predicate Downhill(m: Links, w: Weights, p: Position, r: Option<Position>)
  {
    if p !in m then r == None
    else
      && p in w && (forall q :: q in m[p] ==> q in w)
      && match r
         case Some(q) => q in m[p] && w[q] < w[p] && forall q' :: q' in m[p] && Less(q', q) ==> w[q'] >= w[p]
         case None => forall q :: q in m[p] ==> w[q] >= w[p]
  }

  /** The step is determined: at most one `r` is downhill from `p`. */
  lemma DownhillUnique(m: Links, w: Weights, p: Position, r1: Option<Position>, r2: Option<Position>)
    requires Downhill(m, w, p, r1) && Downhill(m, w, p, r2)
    ensures r1 == r2
  {
    if r1.Some? && r2.Some? {
      LessIsStrictTotalOrder(r1.value, r2.value, r1.value);
    }
  }

  /** Every element of `s` below `r[i]`, where `r` lists `s` in ascending order, comes before index `i`: a bound the first `i` entries meet holds for it. */
  lemma EarlierInOrder(s: set<Position>, r: seq<Position>, w: Weights, c: nat, i: nat)
    requires r == Ascending(s) && i < |r| && forall k :: 0 <= k < i ==> r[k] in w && w[r[k]] >= c
    ensures forall q :: q in s && Less(q, r[i]) ==> q in w && w[q] >= c
  {
    forall q | q in s && Less(q, r[i])
      ensures q in w && w[q] >= c
    {
      var k :| 0 <= k < |r| && r[k] == q;
      if k >= i {
        if k > i {
          assert Less(r[i], r[k]);
        }
        LessIsStrictTotalOrder(q, r[i], q);
        assert false;
      }
    }
  }

  /** The cells linked to a cell of the grid are cells of the grid too, each with a weight. */
  lemma LinksWeighed(g: MazeGrid, m: Links, cur: Position)
    requires g.LinksMirrored() && g.WeightsMirrored() && m == Graph(g.shape, g.links) && cur in m
    ensures forall q :: q in m[cur] ==> Topology.Contains(g.shape, q) && q in g.weights
  {
    forall q | q in m[cur]
      ensures Topology.Contains(g.shape, q) && q in g.weights
    {
      assert cur in g.links[q];
      ContainedIsLaid(g.shape, q);
    }
  }

  /**
   * The loop over the links of `solve`: the first entry of `links` whose cell weighs less
   * than `c`, at index `i`; every entry before it (every entry, when there is none) weighs
   * at least `c`.
   */
  method FirstLighter(g: MazeGrid, links: seq<Position>, c: nat) returns (next: Option<Position>, ghost i: nat)
    requires g.WeightsMirrored() && forall k :: 0 <= k < |links| ==> Topology.Contains(g.shape, links[k])
    ensures next.Some? ==> i < |links| && next.value == links[i] && links[i] in g.weights && g.weights[links[i]] < c
    ensures forall k :: 0 <= k < |links| && (next.None? || k < i) ==> links[k] in g.weights && g.weights[links[k]] >= c
  {
    i := 0;
    for j := 0 to |links|
      invariant forall k :: 0 <= k < j ==> links[k] in g.weights && g.weights[links[k]] >= c
    {
      var other := g.Get(links[j]);
      assert other.Some? && other.value.weight == g.WeightOf(links[j]);
      if other.Some? && other.value.weight < c {
        return Some(links[j]), j;
      }
    }
    next := None;
  }

  /**
   * The link loop of `solve`: walks the links of `cur` in ascending order and stops at the
   * first whose cell weighs less than `cur`.
   */
  method Lower(g: MazeGrid, cur: Position) returns (next: Option<Position>)
    requires g.LinksMirrored() && g.WeightsMirrored()
    ensures Downhill(Graph(g.shape, g.links), g.weights, cur, next)
  {
    ghost var m := Graph(g.shape, g.links);
    var here := g.Get(cur);
    if here.None? {
      return None;
    }
    var cell := here.value;
    ContainedIsLaid(g.shape, cur);
    assert cell.links == m[cur] && cell.weight == g.weights[cur];
    LinksWeighed(g, m, cur);
    var links := Ascending(cell.links);
    ghost var i;
    next, i := FirstLighter(g, links, cell.weight);
    if next.Some? {
      EarlierInOrder(m[cur], links, g.weights, g.weights[cur], i);
    }
  }

  /** `path` starts at `target`, each cell after the first is downhill from the one before, and nothing is downhill from the last. */
  ghost predicate Descends(m: Links, w: Weights, target: Position, path: seq<Position>)
  {
    && |path| >= 1 && path[0] == target
    && (forall k :: 0 <= k < |path| - 1 ==> Downhill(m, w, path[k], Some(path[k + 1])))
    && Downhill(m, w, path[|path| - 1], None)
  }

  /** The walk so far: `path` starts at `target` and steps downhill, and `next` is downhill from its last cell. */
  ghost predicate Trail(m: Links, w: Weights, target: Position, path: seq<Position>, next: Option<Position>)
  {
    if path == [] then next == Some(target)
    else
      && path[0] == target
      && (forall k :: 0 <= k < |path| - 1 ==> Downhill(m, w, path[k], Some(path[k + 1])))
      && Downhill(m, w, path[|path| - 1], next)
  }

  lemma TrailStep(m: Links, w: Weights, target: Position, path: seq<Position>, cur: Position, next: Option<Position>)
    requires Trail(m, w, target, path, Some(cur)) && Downhill(m, w, cur, next)
    ensures Trail(m, w, target, path + [cur], next)
  {
  }

  lemma TrailEnd(m: Links, w: Weights, target: Position, path: seq<Position>)
    requires Trail(m, w, target, path, None)
    ensures Descends(m, w, target, path)
  {
  }

  /** The cells `solve` marks along `path`: those the grid has. */
  ghost predicate MarkedAlong(m: Links, before: set<Position>, path: seq<Position>, after: set<Position>)
  {
    forall p :: p in after <==> p in before || (p in path && p in m)
  }

  lemma MarkedStep(m: Links, before: set<Position>, path: seq<Position>, cur: Position, after: set<Position>, after': set<Position>)
    requires MarkedAlong(m, before, path, after) && after' == after + (if cur in m then {cur} else {})
    ensures MarkedAlong(m, before, path + [cur], after')
  {
    forall p
      ensures p in after' <==> p in before || (p in path + [cur] && p in m)
    {
      assert p in path + [cur] <==> p in path || p == cur;
    }
  }

  /** One cell of the walk: mark it if the grid has it, then find where to go next. */
  method SolveStep(g: MazeGrid, ghost m: Links, cur: Position) returns (next: Option<Position>)
    requires g.Valid() && m == Graph(g.shape, g.links)
    modifies g`marked, g.cells`inSolution
    ensures g.Valid()
    ensures g.marked == old(g.marked) + (if cur in m then {cur} else {})
    ensures Downhill(m, g.weights, cur, next)
  {
    var found := g.Get(cur);
    if found.Some? {
      ContainedIsLaid(g.shape, cur);
      g.MarkAt(cur);
    }
    next := Lower(g, cur);
  }

  /**
   * The loop of `solve`: from `target`, mark the cell, move to its first lower link, and
   * repeat until no link is lower. The weights are left as they are.
   */
  method WalkDown(g: MazeGrid, target: Position) returns (ghost path: seq<Position>)
    requires g.Valid()
    modifies g`marked, g.cells`inSolution
    ensures g.Valid()
    ensures Descends(Graph(g.shape, g.links), g.weights, target, path)
    ensures MarkedAlong(Graph(g.shape, g.links), old(g.marked), path, g.marked)
  {
    ghost var m := Graph(g.shape, g.links);
    ghost var w := g.weights;
    ghost var marked0 := g.marked;
    var next := Some(target);
    path := [];
    while next.Some?
      invariant g.Valid() && m == Graph(g.shape, g.links)
      invariant Trail(m, w, target, path, next)
      invariant MarkedAlong(m, marked0, path, g.marked)
      decreases if path == [] then 1 else 0, if next.Some? && next.value in w then w[next.value] + 1 else 0
    {
      var cur := next.value;
      ghost var marked := g.marked;
      next := SolveStep(g, m, cur);
      TrailStep(m, w, target, path, cur, next);
      MarkedStep(m, marked0, path, cur, marked, g.marked);
      path := path + [cur];
    }
    TrailEnd(m, w, target, path);
  }

  /**
   * `solve`: runs `dijkstra` from `start`, then walks down from `target` marking each cell it
   * passes. The walk is a shortest path to `start` (see `SolutionIsShortest`).
   */
  method Solve(g: MazeGrid, start: Position, target: Position) returns (ghost path: seq<Position>)
    requires g.Valid()
    modifies g`weights, g.cells`weight, g`marked, g.cells`inSolution
    ensures g.Valid()
    ensures Labelled(Graph(g.shape, g.links), start, old(g.weights), g.weights)
    ensures Descends(Graph(g.shape, g.links), g.weights, target, path)
    ensures MarkedAlong(Graph(g.shape, g.links), old(g.marked), path, g.marked)
  {
    Dijkstra(g, start);
    path := WalkDown(g, target);
  }

  /** A step of a descending walk goes along a link to a strictly lighter cell. */
  lemma StepDown(m: Links, w: Weights, target: Position, path: seq<Position>, k: nat)
    requires Descends(m, w, target, path) && k < |path| - 1
    ensures path[k] in m && path[k + 1] in m[path[k]]
    ensures path[k] in w && path[k + 1] in w && w[path[k + 1]] < w[path[k]]
  {
    assert Downhill(m, w, path[k], Some(path[k + 1]));
  }

  /** No link of the last cell of a descending walk is lighter than it. */
  lemma LastIsLowest(m: Links, w: Weights, target: Position, path: seq<Position>, q: Position)
    requires Descends(m, w, target, path) && path[|path| - 1] in m && q in m[path[|path| - 1]]
    ensures path[|path| - 1] in w && q in w && w[q] >= w[path[|path| - 1]]
  {
    assert Downhill(m, w, path[|path| - 1], None);
  }

  /** After `dijkstra`, a cell in layer `d` weighs `d`. */
  lemma WeightIsLayer(m: Links, start: Position, w: Weights, d: nat, p: Position)
    requires LayerWeighed(m, start, w) && p in m && p in Layer(m, start, d)
    ensures p in w && w[p] == d
  {
    assert InLayer(m, start, d, p);
  }

  /** A descending walk cannot leave a cell of layer 0: nothing weighs less than 0. */
  lemma StopsAtStart(m: Links, start: Position, w: Weights, target: Position, path: seq<Position>, k: nat)
    requires LayerWeighed(m, start, w) && Descends(m, w, target, path)
    requires k < |path| && path[k] in m && path[k] in Layer(m, start, 0)
    ensures k == |path| - 1
  {
    WeightIsLayer(m, start, w, 0, path[k]);
    if k < |path| - 1 {
      StepDown(m, w, target, path, k);
    }
  }

  /** After `dijkstra`, a cell of layer `e > 0` has a link to a cell weighing `e - 1`. */
  lemma LighterLink(m: Links, start: Position, w: Weights, e: nat, p: Position) returns (q: Position)
    requires Symmetric(m) && LayerWeighed(m, start, w) && p in m && p in Layer(m, start, e) && e > 0
    ensures q in m[p] && q in w && w[q] == e - 1
  {
    q := LayerHasParent(m, start, e, p);
    WeightIsLayer(m, start, w, e - 1, q);
  }

  /** After `dijkstra`, a link from a cell of layer `e` leads to a cell of layer `w[q]`, one of `e - 1`, `e`, `e + 1`. */
  lemma LinkedWeight(m: Links, start: Position, w: Weights, e: nat, p: Position, q: Position)
    requires Symmetric(m) && LayerWeighed(m, start, w) && p in m && p in Layer(m, start, e) && q in m[p]
    ensures q in m && q in w && q in Layer(m, start, w[q]) && e <= w[q] + 1 && w[q] <= e + 1
  {
    LinkReaches(m, start, e, p, q);
    var f := LayerOf(m, start, e + 1, q);
    LinkSpansLayers(m, start, e, f, p, q);
    WeightIsLayer(m, start, w, f, q);
  }

  /** From a cell of layer `e > 0` a descending walk goes on, to a cell of layer `e - 1`. */
  lemma StepsOneLayer(m: Links, start: Position, w: Weights, target: Position, path: seq<Position>, k: nat, e: nat)
    requires Symmetric(m) && LayerWeighed(m, start, w) && Descends(m, w, target, path)
    requires k < |path| && path[k] in m && path[k] in Layer(m, start, e) && e > 0
    ensures k < |path| - 1 && path[k + 1] in m && path[k + 1] in Layer(m, start, e - 1)
  {
    var p := path[k];
    WeightIsLayer(m, start, w, e, p);
    var parent := LighterLink(m, start, w, e, p);
    if k == |path| - 1 {
      LastIsLowest(m, w, target, path, parent);
    }
    StepDown(m, w, target, path, k);
    LinkedWeight(m, start, w, e, p, path[k + 1]);
  }

  /** Cell `path[k]` lies in layer `e`; then the walk goes down one layer per step and ends at `start`. */
  lemma {:induction false} DescentFrom(m: Links, start: Position, w: Weights, target: Position,
                                      path: seq<Position>, k: nat, e: nat)
    requires Symmetric(m) && LayerWeighed(m, start, w) && Descends(m, w, target, path)
    requires k < |path| && path[k] in m && path[k] in Layer(m, start, e)
    ensures |path| == k + e + 1
    ensures forall j :: k <= j < |path| ==> path[j] in Layer(m, start, |path| - 1 - j)
    decreases e
  {
    if e == 0 {
      StopsAtStart(m, start, w, target, path, k);
    } else {
      StepsOneLayer(m, start, w, target, path, k, e);
      DescentFrom(m, start, w, target, path, k + 1, e - 1);
    }
  }

  /**
   * After `dijkstra` from `start`, the path `solve` marks from a target `d` links away is a
   * shortest one: it has `d + 1` cells, descends one layer per step and ends at `start`.
   */
  lemma SolutionIsShortest(m: Links, start: Position, w0: Weights, w: Weights, target: Position, path: seq<Position>, d: nat)
    requires Symmetric(m) && Labelled(m, start, w0, w) && Descends(m, w, target, path)
    requires target in m && target in Layer(m, start, d)
    ensures |path| == d + 1 && path[d] == start
    ensures forall k :: 0 <= k <= d ==> path[k] in Layer(m, start, d - k)
  {
    DescentFrom(m, start, w, target, path, 0, d);
    assert path[d] in Layer(m, start, 0);
  }
}
