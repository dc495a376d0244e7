/**
 * `wilsons`, `_walk` of `algorithms.rs`: from a random unvisited cell, a loop-erased random
 * walk until it meets the maze; the walk's path is then linked in and leaves `unvisited`.
 */
module Wilsons {
  import opened Pos
  import opened Opt
  import opened Topology
  import opened LinkGraph
  import opened Growth
  import opened Generators
  import opened Grids
  import opened Connectivity

  /** The walk so far: a simple path of unvisited cells, each step to a neighbour. */
  ghost predicate SimplePath(s: Shape, path: seq<Position>, unvisited: set<Position>)
    requires WellFormed(s)
  {
    |path| >= 1 && AllIn(path, unvisited) && Distinct(path) && Steps(s, path)
  }

  predicate AllIn(path: seq<Position>, cells: set<Position>)
  {
    forall i :: 0 <= i < |path| ==> path[i] in cells
  }

  /** No cell occurs twice. */
  predicate Distinct(path: seq<Position>)
  {
    forall i, j :: 0 <= i < j < |path| ==> path[i] != path[j]
  }

  /** A finished walk: a simple path of unvisited cells from `start`, then one step into a visited cell. */
  ghost predicate Arrived(s: Shape, start: Position, path: seq<Position>, unvisited: set<Position>)
    requires WellFormed(s)
  {
    && |path| >= 2 && path[0] == start
    && (forall i :: 0 <= i < |path| - 1 ==> path[i] in unvisited)
    && (forall i, j :: 0 <= i < j < |path| - 1 ==> path[i] != path[j])
    && Steps(s, path)
    && path[|path| - 1] !in unvisited
  }

  /** Each cell of the path is a neighbour of the one before it. */
  ghost predicate Steps(s: Shape, path: seq<Position>)
    requires WellFormed(s)
    decreases |path|
  {
    |path| <= 1 || (Steps(s, path[..|path| - 1]) && path[|path| - 1] in Neighbors(s, path[|path| - 2]))
  }

  /** Step `i` of a walk goes to a neighbour. */
  lemma {:induction false} StepAt(s: Shape, path: seq<Position>, i: nat)
    requires WellFormed(s) && Steps(s, path) && i + 1 < |path|
    ensures path[i + 1] in Neighbors(s, path[i])
    decreases |path|
  {
    if i + 2 < |path| {
      var front := path[..|path| - 1];
      StepAt(s, front, i);
      assert front[i] == path[i] && front[i + 1] == path[i + 1];
    }
  }

  /** A walk cut short is still a walk. */
  lemma {:induction false} StepsPrefix(s: Shape, path: seq<Position>, j: nat)
    requires WellFormed(s) && Steps(s, path) && j <= |path|
    ensures Steps(s, path[..j])
    decreases |path|
  {
    if j < |path| {
      var front := path[..|path| - 1];
      StepsPrefix(s, front, j);
      assert front[..j] == path[..j];
    } else {
      assert path[..j] == path;
    }
  }


  /** `link(path[i], path[i + 1])` for each consecutive pair, in order. */
  function PathEdges(path: seq<Position>): (r: seq<Edge>)
    ensures |r| == if |path| == 0 then 0 else |path| - 1
    ensures forall i :: 0 <= i < |r| ==> r[i] == Edge(path[i], path[i + 1])
  {
    if |path| <= 1 then [] else PathEdges(path[..|path| - 1]) + [Edge(path[|path| - 2], path[|path| - 1])]
  }

  /**
   * Where the walk may step next: the neighbours of its last cell, without the cell before it.
   * The walk never steps straight back.
   */
  function Choices(s: Shape, path: seq<Position>): (r: seq<Position>)
    requires WellFormed(s) && |path| >= 1
    ensures forall q :: q in r <==>
      q in Neighbors(s, path[|path| - 1]) && (|path| > 1 ==> q != path[|path| - 2])
  {
    var choices := Neighbors(s, path[|path| - 1]);
    if |path| > 1 then Without(choices, path[|path| - 2]) else choices
  }

  /** `for i in 0..path.len() { if path[i] == *next { .. break } }`: the first slot holding `x`. */
  method FirstIndex(path: seq<Position>, x: Position) returns (i: nat)
    requires x in path
    ensures i < |path| && path[i] == x
    ensures forall j :: 0 <= j < i ==> path[j] != x
  {
    i := 0;
    while path[i] != x
      invariant i < |path| && x in path[i..]
      invariant forall j :: 0 <= j < i ==> path[j] != x
      decreases |path| - i
    {
      assert path[i..] == [path[i]] + path[i + 1..];
      i := i + 1;
    }
  }

  /** Erasing the loop: cutting the path just after an earlier occurrence of a cell keeps it a simple path. */
  lemma TruncateKeeps(s: Shape, path: seq<Position>, unvisited: set<Position>, i: nat)
    requires WellFormed(s) && SimplePath(s, path, unvisited) && i < |path|
    ensures SimplePath(s, path[..i + 1], unvisited) && path[..i + 1][0] == path[0]
  {
    StepsPrefix(s, path, i + 1);
  }

  /** Stepping to an unvisited cell that is not on the path extends the simple path. */
  lemma ExtendKeeps(s: Shape, path: seq<Position>, unvisited: set<Position>, next: Position)
    requires WellFormed(s) && SimplePath(s, path, unvisited)
    requires next in unvisited && next !in path && next in Neighbors(s, path[|path| - 1])
    ensures SimplePath(s, path + [next], unvisited) && Members(path + [next]) == Members(path) + {next}
    ensures (path + [next])[0] == path[0]
  {
    AllInSnoc(path, unvisited, next);
    DistinctSnoc(path, next);
    StepsSnoc(s, path, next);
    MembersSnoc(path, next);
  }

  lemma AllInSnoc(path: seq<Position>, cells: set<Position>, next: Position)
    requires AllIn(path, cells) && next in cells
    ensures AllIn(path + [next], cells)
  {
    forall i | 0 <= i < |path| + 1
      ensures (path + [next])[i] in cells
    {
      if i < |path| {
        assert (path + [next])[i] == path[i];
      }
    }
  }

  lemma DistinctSnoc(path: seq<Position>, next: Position)
    requires Distinct(path) && next !in path
    ensures Distinct(path + [next])
  {
    var path' := path + [next];
    forall i, j | 0 <= i < j < |path'|
      ensures path'[i] != path'[j]
    {
      assert path'[i] == path[i];
      if j < |path| {
        assert path'[j] == path[j];
      }
    }
  }

  /** A step to a neighbour of the last cell extends a walk. */
  lemma StepsSnoc(s: Shape, path: seq<Position>, next: Position)
    requires WellFormed(s) && Steps(s, path) && |path| >= 1 && next in Neighbors(s, path[|path| - 1])
    ensures Steps(s, path + [next])
  {
    var path' := path + [next];
    assert path'[..|path'| - 1] == path;
    assert path'[|path'| - 1] == next && path'[|path'| - 2] == path[|path| - 1];
  }







  /** Stepping from a simple path into a visited cell finishes the walk. */
  lemma ArriveKeeps(s: Shape, path: seq<Position>, unvisited: set<Position>, next: Position)
    requires WellFormed(s) && SimplePath(s, path, unvisited)
    requires next !in unvisited && next in Neighbors(s, path[|path| - 1])
    ensures Arrived(s, path[0], path + [next], unvisited)
  {
    var path' := path + [next];
    forall i | 0 <= i < |path'| - 1
      ensures path'[i] == path[i]
    {
    }
    StepsSnoc(s, path, next);
  }


  /**
   * One turn of `_walk`'s loop: a step to a random choice, if there is one. Stepping into a
   * visited cell ends the walk; stepping onto the path cuts it back to that cell's first
   * occurrence; any other step extends it. With no choice the walk stays where it is.
   */
  method Step(g: MazeGrid, ghost start: Position, path: seq<Position>, pathSet: set<Position>, unvisited: set<Position>)
    returns (path': seq<Position>, pathSet': set<Position>, finished: bool, ghost next: Option<Position>)
    requires g.Valid() && SimplePath(g.shape, path, unvisited) && path[0] == start && pathSet == Members(path)
    ensures next.None? ==> Choices(g.shape, path) == [] && path' == path && !finished
    ensures next.Some? ==> next.value in Choices(g.shape, path)
    ensures next.Some? && next.value !in unvisited ==> finished && path' == path + [next.value]
    ensures next.Some? && next.value in path ==>
      !finished && 0 < |path'| <= |path| && path' == path[..|path'|] && path'[|path'| - 1] == next.value
    ensures next.Some? && next.value in unvisited && next.value !in path ==> !finished && path' == path + [next.value]
    ensures finished ==> Arrived(g.shape, start, path', unvisited)
    ensures !finished ==> SimplePath(g.shape, path', unvisited) && path'[0] == start && pathSet' == Members(path')
  {
    var choices := ChoicesOf(g, path);
    path', pathSet', finished, next := path, pathSet, false, None;
    if |choices| > 0 {
      var k :| 0 <= k < |choices|;
      next := Some(choices[k]);
      path', pathSet', finished := Move(g.shape, path, pathSet, unvisited, choices[k]);
    }
  }

  /** The choices of one turn: `neighbors()` of the last cell, less the cell before it. */
  method ChoicesOf(g: MazeGrid, path: seq<Position>) returns (choices: seq<Position>)
    requires g.Valid() && |path| >= 1
    ensures choices == Choices(g.shape, path)
  {
    choices := g.Neighbors(path[|path| - 1]);
    if |path| > 1 {
      choices := Without(choices, path[|path| - 2]);
    }
  }

  /** Where one turn leads once the walk steps to the neighbour `next`. */
  method Move(s: Shape, path: seq<Position>, pathSet: set<Position>, unvisited: set<Position>, next: Position)
    returns (path': seq<Position>, pathSet': set<Position>, finished: bool)
    requires WellFormed(s) && SimplePath(s, path, unvisited) && pathSet == Members(path)
    requires next in Neighbors(s, path[|path| - 1])
    ensures next !in unvisited ==> finished && path' == path + [next]
    ensures next in path ==> !finished && 0 < |path'| <= |path| && path' == path[..|path'|] && path'[|path'| - 1] == next
    ensures next in unvisited && next !in path ==> !finished && path' == path + [next]
    ensures finished ==> Arrived(s, path[0], path', unvisited)
    ensures !finished ==> SimplePath(s, path', unvisited) && path'[0] == path[0] && pathSet' == Members(path')
  {
    if next !in unvisited {
      ArriveKeeps(s, path, unvisited, next);
      path', pathSet', finished := path + [next], pathSet, true;
    } else if next in pathSet {
      var i := FirstIndex(path, next);
      TruncateKeeps(s, path, unvisited, i);
      path' := path[..i + 1];
      pathSet', finished := Members(path'), false;
    } else {
      ExtendKeeps(s, path, unvisited, next);
      path' := path + [next];
      pathSet', finished := pathSet + {next}, false;
    }
  }


  /**
   * The `while let` loop of `_walk`, cut off after `fuel` steps: a random walk from `start`
   * that erases each loop as it closes, until it steps into a visited cell (`finished`).
   */
  method Erase(g: MazeGrid, start: Position, unvisited: set<Position>, fuel: nat)
    returns (path: seq<Position>, finished: bool, fuel': nat)
    requires g.Valid() && start in unvisited
    ensures finished ==> Arrived(g.shape, start, path, unvisited)
    ensures fuel' <= fuel && (fuel > 0 ==> fuel' < fuel) && (!finished ==> fuel' == 0)
  {
    path := [start];
    var pathSet := {start};
    finished := false;
    fuel' := fuel;
    while fuel' > 0 && !finished
      invariant fuel' <= fuel && (fuel' == fuel ==> !finished)
      invariant !finished ==> SimplePath(g.shape, path, unvisited) && path[0] == start && pathSet == Members(path)
      invariant finished ==> Arrived(g.shape, start, path, unvisited)
      decreases fuel'
    {
      ghost var next;
      path, pathSet, finished, next := Step(g, start, path, pathSet, unvisited);
      fuel' := fuel' - 1;
    }
  }

  /**
   * The end of `_walk`: `link(path[i], path[i + 1])` for each consecutive pair and
   * `unvisited.remove(path[i])` for every cell, in one pass.
   */
  method LinkPath(g: MazeGrid, path: seq<Position>, unvisited: set<Position>) returns (unvisited': set<Position>)
    requires g.Valid() && |path| >= 2 && Steps(g.shape, path)
    modifies g`links, g.cells`links
    ensures g.Valid()
    ensures Within(old(g.links), PathEdges(path)) && g.links == AddAll(old(g.links), PathEdges(path))
    ensures unvisited' == unvisited - Members(path)
  {
    ghost var m := g.links;
    ghost var done: seq<Edge> := [];
    unvisited' := unvisited;
    for i := 0 to |path|
      invariant g.Valid() && Unwound(g.shape, m, g.links, path, i, done, unvisited, unvisited')
    {
      if i < |path| - 1 {
        StepAt(g.shape, path, i);
        LinkableStep(g.shape, path[i], path[i + 1]);
      }
      done, unvisited' := Visit(g, path, i, m, done, unvisited, unvisited');
    }
    assert path[..|path|] == path;
    PathEdgesExact(path, done);
  }

  /**
   * `LinkPath` after `i` turns: the calls `done` link each cell before `i` to the next one,
   * and the cells before `i` are out of `unvisited`.
   */
  ghost predicate Unwound(s: Shape, m: Links, links: Links, path: seq<Position>, i: nat, done: seq<Edge>,
                          unvisited: set<Position>, unvisited': set<Position>)
  {
    && i <= |path| && Within(m, done) && links == AddAll(m, done)
    && |done| == (if i < |path| then i else |path| - 1)
    && (forall k :: 0 <= k < |done| ==> done[k] == Edge(path[k], path[k + 1]))
    && unvisited' == unvisited - Members(path[..i])
  }

  /** One turn of `LinkPath`: `link(path[i], path[i + 1])` unless `i` is the last cell, then `unvisited.remove(path[i])`. */
  method Visit(g: MazeGrid, path: seq<Position>, i: nat, ghost m: Links, ghost done: seq<Edge>,
               unvisited: set<Position>, unvisited': set<Position>)
    returns (ghost done': seq<Edge>, unvisited'': set<Position>)
    requires g.Valid() && i < |path| && Unwound(g.shape, m, g.links, path, i, done, unvisited, unvisited')
    requires i < |path| - 1 ==> Topology.Contains(g.shape, path[i]) && Topology.Contains(g.shape, path[i + 1])
    modifies g`links, g.cells`links
    ensures g.Valid() && Unwound(g.shape, m, g.links, path, i + 1, done', unvisited, unvisited'')
  {
    done' := done;
    if i < |path| - 1 {
      LinkEdge(g, m, done, path[i], path[i + 1]);
      done' := done + [Edge(path[i], path[i + 1])];
    }
    unvisited'' := unvisited' - {path[i]};
    UnwoundNext(g.shape, m, g.links, path, i, done, done', unvisited, unvisited');
  }

  /** The bookkeeping of one turn of `LinkPath`: one more call recorded, one more cell out of `unvisited`. */
  lemma UnwoundNext(s: Shape, m: Links, links: Links, path: seq<Position>, i: nat, done: seq<Edge>, done': seq<Edge>,
                    unvisited: set<Position>, unvisited': set<Position>)
    requires i < |path| && Within(m, done) && Unwound(s, m, AddAll(m, done), path, i, done, unvisited, unvisited')
    requires done' == if i < |path| - 1 then done + [Edge(path[i], path[i + 1])] else done
    requires Within(m, done') && links == AddAll(m, done')
    ensures Unwound(s, m, links, path, i + 1, done', unvisited, unvisited' - {path[i]})
  {
    PrefixSnoc(path, i);
    MembersSnoc(path[..i], path[i]);
    DropOne(unvisited, Members(path[..i]), path[i]);
    CallsStep(path, i, done, done');
  }

  /** The calls recorded after one more turn still link each cell to the next one. */
  lemma CallsStep(path: seq<Position>, i: nat, done: seq<Edge>, done': seq<Edge>)
    requires i < |path| && |done| == i
    requires forall k :: 0 <= k < |done| ==> done[k] == Edge(path[k], path[k + 1])
    requires done' == if i < |path| - 1 then done + [Edge(path[i], path[i + 1])] else done
    ensures |done'| == (if i + 1 < |path| then i + 1 else |path| - 1)
    ensures forall k :: 0 <= k < |done'| ==> done'[k] == Edge(path[k], path[k + 1])
  {
  }

  /** Taking out the cells `a` and then `x` takes out `a + {x}`. */
  lemma DropOne(u: set<Position>, a: set<Position>, x: Position)
    ensures u - (a + {x}) == (u - a) - {x}
  {
  }

  /** The calls of `LinkPath`, one per consecutive pair of the path, are `PathEdges`. */
  lemma {:induction false} PathEdgesExact(path: seq<Position>, es: seq<Edge>)
    requires |path| >= 1 && |es| == |path| - 1
    requires forall k :: 0 <= k < |es| ==> es[k] == Edge(path[k], path[k + 1])
    ensures es == PathEdges(path)
  {
    if |path| > 1 {
      var front := path[..|path| - 1];
      PathEdgesExact(front, es[..|es| - 1]);
      assert es == es[..|es| - 1] + [es[|es| - 1]];
    }
  }

  /** Cells taken out of `unvisited` join the visited region; one more visited cell changes nothing. */
  lemma Absorb(laid: set<Position>, unvisited: set<Position>, taken: set<Position>, x: Position)
    requires taken <= unvisited <= laid && x in laid - unvisited
    ensures (laid - unvisited) + taken == laid - (unvisited - (taken + {x}))
  {
  }

  /**
   * The calls of a finished walk read backwards, as the maze grows: from the visited cell it
   * reached into the cell before, and so on back to the start.
   */
  function Calls(path: seq<Position>): (r: seq<Edge>)
    ensures |r| == if |path| == 0 then 0 else |path| - 1
    ensures forall k :: 0 <= k < |r| ==> r[k] == Edge(path[|path| - 1 - k], path[|path| - 2 - k])
  {
    if |path| <= 1 then [] else [Edge(path[|path| - 1], path[|path| - 2])] + Calls(path[..|path| - 1])
  }

  /** Call `k`, read backwards, steps from cell `|path| - 1 - k` of the walk into the cell before it. */
  lemma CallAt(path: seq<Position>, k: nat)
    requires k + 1 < |path|
    ensures Calls(path)[k] == Edge(path[|path| - 1 - k], path[|path| - 2 - k])
  {
  }

  /** The calls read backwards join exactly the pairs the walk's own links join. */
  lemma CallsJoin(path: seq<Position>, p: Position, q: Position)
    ensures JoinedBy(Calls(path), p, q) <==> JoinedBy(PathEdges(path), p, q)
  {
    var cs, es := Calls(path), PathEdges(path);
    if JoinedBy(cs, p, q) {
      var k :| 0 <= k < |cs| && Joins(cs[k], p, q);
      assert Joins(es[|path| - 2 - k], p, q);
    }
    if JoinedBy(es, p, q) {
      var i :| 0 <= i < |es| && Joins(es[i], p, q);
      assert Joins(cs[|path| - 2 - i], p, q);
    }
  }

  /** The calls read backwards stay among the cells the walk's links use. */
  lemma CallsWithin(m: Links, path: seq<Position>)
    requires Within(m, PathEdges(path))
    ensures Within(m, Calls(path))
  {
    var cs, es := Calls(path), PathEdges(path);
    forall k | 0 <= k < |cs|
      ensures cs[k].from in m && cs[k].to in m
    {
      assert es[|path| - 2 - k] == Edge(path[|path| - 2 - k], path[|path| - 1 - k]);
    }
  }

  /** Call `k` of a walk, read backwards, steps from a cell of the path to the one before it, its neighbour too. */
  lemma WalkEdgeAt(s: Shape, path: seq<Position>, k: nat)
    requires WellFormed(s) && Steps(s, path) && k < |path| - 1
    ensures Calls(path)[k].to in Neighbors(s, Calls(path)[k].from)
  {
    StepAt(s, path, |path| - 2 - k);
    CallAt(path, k);
    NeighborsSymmetric(s, path[|path| - 2 - k], path[|path| - 1 - k]);
  }


  /** Every cell of a walk but its last is entered by one of its calls, read backwards. */
  lemma WalkHeadsCover(path: seq<Position>)
    requires |path| >= 2
    ensures Members(path[..|path| - 1]) <= Heads(Calls(path))
  {
    var n := |path|;
    var bw := Calls(path);
    forall p | p in Members(path[..n - 1])
      ensures p in Heads(bw)
    {
      var front := path[..n - 1];
      var j :| 0 <= j < |front| && front[j] == p;
      assert path[j] == p;
      var k := n - 2 - j;
      CallAt(path, k);
      HeadIn(bw, k);
    }
  }

  /** Every cell a call of a walk enters, read backwards, is a cell of the walk but its last. */
  lemma WalkHeadsWithin(path: seq<Position>)
    requires |path| >= 2
    ensures Heads(Calls(path)) <= Members(path[..|path| - 1])
  {
    var bw := Calls(path);
    forall p | p in Heads(bw)
      ensures p in Members(path[..|path| - 1])
    {
      var k :| 0 <= k < |bw| && bw[k].to == p;
      WalkHeadAt(path, k);
    }
  }

  /** The cell call `k` enters, read backwards, is a cell of the walk but its last. */
  lemma WalkHeadAt(path: seq<Position>, k: nat)
    requires k + 1 < |path|
    ensures Calls(path)[k].to in Members(path[..|path| - 1])
  {
    CallAt(path, k);
    var front := path[..|path| - 1];
    assert front[|path| - 2 - k] == Calls(path)[k].to;
  }


  /** Call `k` of a finished walk, read backwards, enters an unvisited neighbour; the first starts in `r`. */
  lemma WalkCallAt(s: Shape, start: Position, path: seq<Position>, unvisited: set<Position>, r: set<Position>, k: nat)
    requires WellFormed(s) && Arrived(s, start, path, unvisited) && r !! unvisited && path[|path| - 1] in r
    requires k < |path| - 1
    ensures Calls(path)[k].to !in r
    ensures Calls(path)[k].to in Neighbors(s, Calls(path)[k].from)
    ensures k == 0 ==> Calls(path)[k].from in r
    ensures k > 0 ==> Calls(path)[k].from == Calls(path)[k - 1].to
  {
    var n := |path|;
    WalkEdgeAt(s, path, k);
    CallAt(path, k);
    assert path[n - 2 - k] in unvisited;
    if k > 0 {
      CallAt(path, k - 1);
    }
  }

  /** Two calls of a finished walk, read backwards, enter different cells. */
  lemma WalkEntersOnce(s: Shape, start: Position, path: seq<Position>, unvisited: set<Position>, k: nat, l: nat)
    requires WellFormed(s) && Arrived(s, start, path, unvisited) && l < k < |path| - 1
    ensures Calls(path)[l].to != Calls(path)[k].to
  {
    CallAt(path, k);
    CallAt(path, l);
  }

  /**
   * Read backwards from the visited cell it reached, a finished walk is a forest hanging
   * off the visited cells: each call enters a cell of the path for the first time.
   */
  lemma WalkOrder(s: Shape, start: Position, path: seq<Position>, unvisited: set<Position>, r: set<Position>)
    requires WellFormed(s) && Arrived(s, start, path, unvisited) && r !! unvisited && path[|path| - 1] in r
    ensures Forest(r, Calls(path)) && NeighborEdges(s, Calls(path))
  {
    var n := |path|;
    var bw := Calls(path);
    forall k | 0 <= k < |bw|
      ensures bw[k].to !in r && bw[k].to in Neighbors(s, bw[k].from)
      ensures bw[k].from in r || exists l :: 0 <= l < k && bw[l].to == bw[k].from
    {
      WalkCallAt(s, start, path, unvisited, r, k);
      if k > 0 {
        assert bw[k - 1].to == bw[k].from;
      }
    }
    forall k, l | 0 <= l < k < |bw|
      ensures bw[l].to != bw[k].to
    {
      WalkEntersOnce(s, start, path, unvisited, k, l);
    }
    ForestByOrder(r, bw);
  }

  /**
   * A finished walk grows the forest: read backwards from the visited cell it reached, each of
   * its links enters a cell of the path for the first time, and the whole path joins the maze.
   */
  lemma WalkJoin(s: Shape, initial: Position, edges: seq<Edge>, unvisited: set<Position>, start: Position, path: seq<Position>)
    requires WellFormed(s) && Arrived(s, start, path, unvisited) && unvisited <= LaidSet(s)
    requires Forest({initial}, edges) && Reached({initial}, edges) == LaidSet(s) - unvisited
    ensures Forest({initial}, edges + Calls(path))
    ensures Reached({initial}, edges + Calls(path)) == LaidSet(s) - (unvisited - Members(path))
    ensures NeighborEdges(s, Calls(path))
  {
    var n := |path|;
    var bw := Calls(path);
    var r := Reached({initial}, edges);
    LinkableStep(s, path[n - 2], path[n - 1]);
    WalkOrder(s, start, path, unvisited, r);
    ForestAppend({initial}, edges, bw);
    WalkCovers(s, start, path, unvisited, LaidSet(s));
  }

  /** A finished walk brings every cell of its path into the visited region. */
  lemma WalkCovers(s: Shape, start: Position, path: seq<Position>, unvisited: set<Position>, laid: set<Position>)
    requires WellFormed(s) && Arrived(s, start, path, unvisited) && unvisited <= laid && path[|path| - 1] in laid
    ensures Reached(laid - unvisited, Calls(path)) == laid - (unvisited - Members(path))
  {
    var n := |path|;
    WalkHeadsCover(path);
    WalkHeadsWithin(path);
    SplitLast(path);
    MembersSnoc(path[..n - 1], path[n - 1]);
    assert Members(path[..n - 1]) <= unvisited;
    Absorb(laid, unvisited, Members(path[..n - 1]), path[n - 1]);
  }

  /** What the walks so far have built: a forest off `initial` reaching every cell outside `unvisited`. */
  ghost predicate Woven(s: Shape, m: Links, links: Links, initial: Position, edges: seq<Edge>, unvisited: set<Position>)
    requires WellFormed(s)
  {
    && unvisited <= LaidSet(s) && initial in LaidSet(s)
    && Within(m, edges) && links == AddAll(m, edges)
    && Forest({initial}, edges) && NeighborEdges(s, edges)
    && Reached({initial}, edges) == LaidSet(s) - unvisited
  }

  /**
   * `_walk` from `path = [start]`, cut off after `fuel` steps: a finished walk links its path
   * into the maze and takes its cells out of `unvisited`; a walk cut off changes nothing.
   */
  method Walk(g: MazeGrid, start: Position, unvisited: set<Position>, fuel: nat,
              ghost m: Links, ghost initial: Position, ghost edges: seq<Edge>)
    returns (unvisited': set<Position>, fuel': nat, ghost edges': seq<Edge>)
    requires g.Valid() && start in unvisited && fuel > 0
    requires Woven(g.shape, m, g.links, initial, edges, unvisited)
    modifies g`links, g.cells`links
    ensures g.Valid() && Woven(g.shape, m, g.links, initial, edges', unvisited')
    ensures fuel' < fuel && unvisited' <= unvisited
  {
    var path, finished;
    path, finished, fuel' := Erase(g, start, unvisited, fuel);
    if finished {
      ghost var before := g.links;
      unvisited' := LinkPath(g, path, unvisited);
      WalkWoven(g.shape, m, before, g.links, initial, edges, unvisited, start, path);
      edges' := edges + Calls(path);
    } else {
      unvisited', edges' := unvisited, edges;
    }
  }

  /** Linking a finished walk's path keeps the maze woven, with the path's cells visited. */
  lemma WalkWoven(s: Shape, m: Links, before: Links, after: Links, initial: Position, edges: seq<Edge>,
                  unvisited: set<Position>, start: Position, path: seq<Position>)
    requires WellFormed(s) && Woven(s, m, before, initial, edges, unvisited)
    requires Arrived(s, start, path, unvisited)
    requires Within(before, PathEdges(path)) && after == AddAll(before, PathEdges(path))
    ensures Woven(s, m, after, initial, edges + Calls(path), unvisited - Members(path))
  {
    WalkJoin(s, initial, edges, unvisited, start, path);
    CallsWithin(before, path);
    forall p, q
      ensures JoinedBy(Calls(path), p, q) <==> JoinedBy(PathEdges(path), p, q)
    {
      CallsJoin(path, p, q);
    }
    SameJoins(before, Calls(path), PathEdges(path));
    AddAllAppend(m, edges, Calls(path));
    NeighborEdgesAppend(s, edges, Calls(path));
  }

  /** Before the first walk: no links yet, and only `initial` is visited. */
  lemma WovenStart(s: Shape, m: Links, initial: Position, unvisited: set<Position>)
    requires WellFormed(s) && initial in LaidSet(s) && unvisited == LaidSet(s) - {initial}
    ensures Woven(s, m, m, initial, [], unvisited)
  {
    assert LaidSet(s) - unvisited == {initial};
  }

  /** What the walks leave: a forest from the first visited cell, spanning once nothing is unvisited. */
  lemma WovenEnd(s: Shape, m: Links, links: Links, initial: Position, edges: seq<Edge>, unvisited: set<Position>)
    requires WellFormed(s) && Woven(s, m, links, initial, edges, unvisited)
    ensures Within(m, edges) && links == AddAll(m, edges) && NeighborEdges(s, edges)
    ensures initial in LaidSet(s) && Forest({initial}, edges)
    ensures unvisited == {} ==> Reached({initial}, edges) == LaidSet(s)
  {
  }

  /** `while !unvisited.is_empty()`: walk after walk, each cut off after the fuel left. */
  method Weave(g: MazeGrid, fuel: nat, ghost m: Links, ghost initial: Position, unvisited: set<Position>)
    returns (unvisited': set<Position>, ghost edges: seq<Edge>)
    requires g.Valid() && Woven(g.shape, m, g.links, initial, [], unvisited)
    modifies g`links, g.cells`links
    ensures g.Valid() && Woven(g.shape, m, g.links, initial, edges, unvisited')
    ensures unvisited' <= unvisited && (fuel == 0 ==> unvisited' == unvisited)
  {
    unvisited', edges := unvisited, [];
    var steps := fuel;
    while unvisited' != {} && steps > 0
      invariant g.Valid() && Woven(g.shape, m, g.links, initial, edges, unvisited') && unvisited' <= unvisited
      invariant fuel == 0 ==> unvisited' == unvisited
      decreases steps
    {
      var start :| start in unvisited';
      unvisited', steps, edges := Walk(g, start, unvisited', steps, m, initial, edges);
    }
  }

  /**
   * `wilsons`: all cells start unvisited but one; walks from random unvisited cells, each
   * cut off after the fuel left, until none is left. The links form a forest hanging off
   * the first visited cell, and once every cell is visited (`finished`), a spanning tree.
   */
  method Wilsons(g: MazeGrid, fuel: nat) returns (finished: bool, ghost initial: Position, ghost edges: seq<Edge>)
    requires g.Valid()
    modifies g`links, g.cells`links
    ensures g.Valid()
    ensures Within(old(g.links), edges) && g.links == AddAll(old(g.links), edges)
    ensures NeighborEdges(g.shape, edges)
    ensures |g.cells| > 0 ==> initial in LaidSet(g.shape) && Forest({initial}, edges)
    ensures finished && |g.cells| > 0 ==> Reached({initial}, edges) == LaidSet(g.shape)
    ensures |g.cells| == 0 ==> finished && edges == []
  {
    ghost var m := g.links;
    g.LaidCount();
    var unvisited := g.PositionSet();
    var first, rest := MakeInitial(unvisited);
    unvisited := rest;
    edges := [];
    if first.None? {
      return true, Position(0, 0), [];
    }
    initial := first.value;
    WovenStart(g.shape, m, initial, unvisited);
    unvisited, edges := Weave(g, fuel, m, initial, unvisited);
    finished := unvisited == {};
    WovenEnd(g.shape, m, g.links, initial, edges, unvisited);
  }
}
