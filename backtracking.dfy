/**
 * The depth-first generators of `algorithms.rs`: `recursive_backtracker` / `_recurse`
 * and `iterative_backtracker`.
 */
module Backtracking {
  import opened Pos
  import opened Opt
  import opened Topology
  import opened LinkGraph
  import opened Growth
  import opened Generators
  import opened Connectivity
  import opened Grids

  /** The forest reaches exactly the visited cells and the cells on the stack. */
  ghost predicate Covered(s: Shape, start: Position, edges: seq<Edge>, unvisited: set<Position>, stack: seq<Position>)
  {
    && unvisited <= LaidSet(s)
    && Reached({start}, edges) == (LaidSet(s) - unvisited) + Members(stack)
  }

  /** The stack holds laid-out cells without repeats, and only its top may be unvisited. */
  ghost predicate StackShape(s: Shape, unvisited: set<Position>, stack: seq<Position>)
  {
    && (forall i :: 0 <= i < |stack| ==> stack[i] in LaidSet(s))
    && (forall i :: 0 <= i < |stack| - 1 ==> stack[i] !in unvisited)
    && (forall i, j :: 0 <= i < j < |stack| ==> stack[i] != stack[j])
  }

  /** Every visited cell off the stack is stuck. */
  ghost predicate OffStackStuck(s: Shape, unvisited: set<Position>, stack: seq<Position>)
    requires WellFormed(s)
  {
    forall p :: p in LaidSet(s) - unvisited && p !in stack ==> Exhausted(s, p, unvisited)
  }

  /** The unvisited cells not yet on the stack. */
  function Pending(unvisited: set<Position>, stack: seq<Position>): nat
  {
    |unvisited - Members(stack)|
  }

  /** Linking the top `cur` to an unvisited neighbour grows the forest by that edge. */
  lemma PushGrows(s: Shape, start: Position, edges: seq<Edge>, unvisited: set<Position>, stack: seq<Position>,
                  cur: Position, neighbor: Position)
    requires WellFormed(s) && Grown(s, {start}, edges) && Covered(s, start, edges, unvisited, stack)
    requires stack != [] && cur == stack[|stack| - 1] && StackShape(s, unvisited, stack)
    requires neighbor in Neighbors(s, cur) && neighbor in unvisited - {cur}
    ensures Grown(s, {start}, edges + [Edge(cur, neighbor)])
    ensures Reached({start}, edges + [Edge(cur, neighbor)]) == Reached({start}, edges) + {neighbor}
  {
    FreshNeighbor(s, unvisited, stack, cur, neighbor);
    GrownSnoc(s, {start}, edges, Edge(cur, neighbor));
  }

  /** An unvisited cell other than the top is not on the stack. */
  lemma FreshNeighbor(s: Shape, unvisited: set<Position>, stack: seq<Position>, cur: Position, neighbor: Position)
    requires stack != [] && cur == stack[|stack| - 1] && StackShape(s, unvisited, stack)
    requires neighbor in unvisited - {cur}
    ensures neighbor !in Members(stack)
  {
    forall i | 0 <= i < |stack|
      ensures stack[i] != neighbor
    {
      if i < |stack| - 1 {
        assert stack[i] !in unvisited;
      }
    }
  }

  /** Pushing `cur` back and then `neighbor` keeps the stack without repeats, with only the new top unvisited. */
  lemma PushShape(s: Shape, unvisited: set<Position>, stack: seq<Position>, cur: Position, neighbor: Position)
    requires stack != [] && cur == stack[|stack| - 1] && StackShape(s, unvisited, stack)
    requires neighbor in LaidSet(s) && neighbor in unvisited - {cur}
    ensures StackShape(s, unvisited - {cur}, stack[..|stack| - 1] + [cur, neighbor])
    ensures Members(stack[..|stack| - 1] + [cur, neighbor]) == Members(stack) + {neighbor}
  {
    var rest := stack[..|stack| - 1];
    var stack' := rest + [cur, neighbor];
    var u' := unvisited - {cur};
    assert stack == rest + [cur];
    forall i, j | 0 <= i < j < |stack'|
      ensures stack'[i] != stack'[j]
    {
      if j == |stack'| - 1 {
        if i < |rest| {
          assert stack'[i] == stack[i];
        }
      } else {
        assert stack'[i] == stack[i] && stack'[j] == stack[j];
      }
    }
    forall i | 0 <= i < |stack'| - 1
      ensures stack'[i] !in u'
    {
      if i < |rest| {
        assert stack'[i] == stack[i];
      }
    }
    forall i | 0 <= i < |stack'|
      ensures stack'[i] in LaidSet(s)
    {
      if i < |rest| {
        assert stack'[i] == stack[i];
      }
    }
  }

  /** A push keeps the cover, leaves visited cells off the stack stuck, and takes a cell off the pending ones. */
  lemma PushStep(s: Shape, start: Position, edges: seq<Edge>, unvisited: set<Position>, stack: seq<Position>,
                 cur: Position, neighbor: Position)
    requires WellFormed(s) && Grown(s, {start}, edges) && Covered(s, start, edges, unvisited, stack)
    requires stack != [] && cur == stack[|stack| - 1]
    requires StackShape(s, unvisited, stack) && OffStackStuck(s, unvisited, stack)
    requires neighbor in Neighbors(s, cur) && neighbor in unvisited - {cur}
    ensures Grown(s, {start}, edges + [Edge(cur, neighbor)])
    ensures Covered(s, start, edges + [Edge(cur, neighbor)], unvisited - {cur}, stack[..|stack| - 1] + [cur, neighbor])
    ensures StackShape(s, unvisited - {cur}, stack[..|stack| - 1] + [cur, neighbor])
    ensures OffStackStuck(s, unvisited - {cur}, stack[..|stack| - 1] + [cur, neighbor])
    ensures Pending(unvisited - {cur}, stack[..|stack| - 1] + [cur, neighbor]) < Pending(unvisited, stack)
  {
    var stack' := stack[..|stack| - 1] + [cur, neighbor];
    LinkableStep(s, cur, neighbor);
    PushGrows(s, start, edges, unvisited, stack, cur, neighbor);
    PushShape(s, unvisited, stack, cur, neighbor);
    assert cur in Members(stack);
    PushCover(LaidSet(s), unvisited, Members(stack), Members(stack'), cur, neighbor);
    FreshNeighbor(s, unvisited, stack, cur, neighbor);
    PushPending(unvisited, Members(stack), Members(stack'), cur, neighbor);
    PushStuck(s, unvisited, stack, cur, neighbor);
  }

  /** A push takes the new top off the pending cells. */
  lemma PushPending(u: set<Position>, onStack: set<Position>, onStack': set<Position>, c: Position, n: Position)
    requires c in onStack && onStack' == onStack + {n} && n in u && n !in onStack
    ensures |(u - {c}) - onStack'| < |u - onStack|
  {
    assert (u - {c}) - onStack' == (u - onStack) - {n};
  }

  /** A push leaves every visited cell off the stack stuck: it was stuck before, and fewer cells are unvisited now. */
  lemma PushStuck(s: Shape, unvisited: set<Position>, stack: seq<Position>, cur: Position, neighbor: Position)
    requires WellFormed(s) && stack != [] && cur == stack[|stack| - 1] && OffStackStuck(s, unvisited, stack)
    ensures OffStackStuck(s, unvisited - {cur}, stack[..|stack| - 1] + [cur, neighbor])
  {
    var stack' := stack[..|stack| - 1] + [cur, neighbor];
    var u' := unvisited - {cur};
    forall p | p in LaidSet(s) - u' && p !in stack'
      ensures Exhausted(s, p, u')
    {
      forall i | 0 <= i < |stack|
        ensures stack[i] != p
      {
        assert stack'[i] == stack[i];
      }
      assert Exhausted(s, p, unvisited);
    }
  }

  /** Set algebra behind a pop: moving `c` from the stack's cells to the visited ones leaves their union alone. */
  lemma MoveToVisited(laid: set<Position>, u: set<Position>, onStack: set<Position>, rest: set<Position>, c: Position)
    requires c in laid && onStack == rest + {c}
    ensures (laid - u) + onStack == (laid - (u - {c})) + rest
  {
  }

  /** Set algebra behind a push: the visited cells gain `c`, which the stack already holds, and the stack gains `n`. */
  lemma PushCover(laid: set<Position>, u: set<Position>, onStack: set<Position>, onStack': set<Position>, c: Position, n: Position)
    requires c in laid && c in onStack && onStack' == onStack + {n}
    ensures (laid - (u - {c})) + onStack' == ((laid - u) + onStack) + {n}
  {
  }

  /** Dropping the top keeps the stack without repeats, with nothing unvisited left on it. */
  lemma PopShape(s: Shape, unvisited: set<Position>, stack: seq<Position>, cur: Position)
    requires stack != [] && cur == stack[|stack| - 1] && StackShape(s, unvisited, stack)
    ensures StackShape(s, unvisited - {cur}, stack[..|stack| - 1])
    ensures cur !in stack[..|stack| - 1]
  {
    var rest := stack[..|stack| - 1];
    forall i | 0 <= i < |rest|
      ensures rest[i] in LaidSet(s) && rest[i] !in unvisited - {cur} && rest[i] != cur
    {
      assert rest[i] == stack[i];
    }
    forall i, j | 0 <= i < j < |rest|
      ensures rest[i] != rest[j]
    {
      assert rest[i] == stack[i] && rest[j] == stack[j];
    }
  }

  /** Popping a stuck top keeps the state and leaves no more cells pending. */
  lemma PopStep(s: Shape, start: Position, edges: seq<Edge>, unvisited: set<Position>, stack: seq<Position>, cur: Position)
    requires WellFormed(s) && Covered(s, start, edges, unvisited, stack)
    requires stack != [] && cur == stack[|stack| - 1]
    requires StackShape(s, unvisited, stack) && OffStackStuck(s, unvisited, stack)
    requires Exhausted(s, cur, unvisited - {cur})
    ensures Covered(s, start, edges, unvisited - {cur}, stack[..|stack| - 1])
    ensures StackShape(s, unvisited - {cur}, stack[..|stack| - 1])
    ensures OffStackStuck(s, unvisited - {cur}, stack[..|stack| - 1])
    ensures Pending(unvisited - {cur}, stack[..|stack| - 1]) <= Pending(unvisited, stack)
  {
    var rest := stack[..|stack| - 1];
    var u' := unvisited - {cur};
    assert stack == rest + [cur];
    var s0 := Members(stack);
    assert s0 == Members(rest) + {cur};
    PopShape(s, unvisited, stack, cur);
    MoveToVisited(LaidSet(s), unvisited, s0, Members(rest), cur);
    forall p | p in LaidSet(s) - u' && p !in rest
      ensures Exhausted(s, p, u')
    {
      if p != cur {
        assert Exhausted(s, p, unvisited);
      }
    }
    SubsetCard(u' - Members(rest), unvisited - s0);
  }

  /**
   * `iterative_backtracker`: from a start taken out of the unvisited set, pop a cell, and
   * while it has unvisited neighbours link it to one and push both back. Every link joins
   * a reached cell to an unreached neighbour, and at the end every reached cell has all
   * its neighbours reached: the links form a spanning tree of the whole grid, with one link fewer than cells.
   */
  method IterativeBacktracker(g: MazeGrid) returns (ghost start: Position, ghost edges: seq<Edge>)
    requires g.Valid()
    modifies g`links, g.cells`links
    ensures g.Valid()
    ensures Within(old(g.links), edges) && g.links == AddAll(old(g.links), edges)
    ensures NeighborEdges(g.shape, edges)
    ensures |g.cells| == 0 ==> edges == []
    ensures |g.cells| > 0 ==>
      && start in LaidSet(g.shape)
      && Forest({start}, edges)
      && Closed(g.shape, Reached({start}, edges), LaidSet(g.shape) - Reached({start}, edges))
      && Reached({start}, edges) == LaidSet(g.shape)
      && |edges| == |g.cells| - 1
  {
    ghost var links0 := g.links;
    g.LaidCount();
    var unvisited := g.PositionSet();
    var initial;
    initial, unvisited := MakeInitial(unvisited);
    edges := [];
    AddNone(links0);
    start := Position(0, 0);
    if initial.Some? {
      start := initial.value;
      var stack := [initial.value];
      StackStart(g.shape, start, unvisited);
      edges, unvisited := Drain(g, links0, start, edges, unvisited, stack);
      StackDone(g.shape, start, edges, unvisited);
      SpanningTree(g.shape, start, edges);
    }
  }

  /** The state right after `_make_initial`: the stack holds just the start, and nothing is linked. */
  lemma StackStart(s: Shape, start: Position, unvisited: set<Position>)
    requires WellFormed(s) && start in LaidSet(s) && unvisited == LaidSet(s) - {start}
    ensures Grown(s, {start}, []) && Covered(s, start, [], unvisited, [start])
    ensures StackShape(s, unvisited, [start]) && OffStackStuck(s, unvisited, [start])
  {
    assert Members([start]) == {start};
    assert LaidSet(s) - unvisited == {start};
  }

  /** `iterative_backtracker`'s loop: visit the top of the stack until the stack is empty. */
  method Drain(g: MazeGrid, ghost links0: Links, ghost start: Position, ghost edges: seq<Edge>,
               unvisited: set<Position>, stack: seq<Position>)
    returns (ghost edges': seq<Edge>, unvisited': set<Position>)
    requires g.Valid() && links0.Keys == LaidSet(g.shape)
    requires Within(links0, edges) && g.links == AddAll(links0, edges)
    requires Grown(g.shape, {start}, edges) && Covered(g.shape, start, edges, unvisited, stack)
    requires StackShape(g.shape, unvisited, stack) && OffStackStuck(g.shape, unvisited, stack)
    modifies g`links, g.cells`links
    ensures g.Valid()
    ensures Within(links0, edges') && g.links == AddAll(links0, edges')
    ensures Grown(g.shape, {start}, edges') && Covered(g.shape, start, edges', unvisited', [])
    ensures OffStackStuck(g.shape, unvisited', [])
  {
    edges', unvisited' := edges, unvisited;
    var stack' := stack;
    while stack' != []
      invariant g.Valid() && links0.Keys == LaidSet(g.shape)
      invariant Within(links0, edges') && g.links == AddAll(links0, edges')
      invariant Grown(g.shape, {start}, edges') && Covered(g.shape, start, edges', unvisited', stack')
      invariant StackShape(g.shape, unvisited', stack') && OffStackStuck(g.shape, unvisited', stack')
      decreases Pending(unvisited', stack'), |stack'|
    {
      edges', unvisited', stack' := Visit(g, links0, start, edges', unvisited', stack');
    }
  }

  /** Once the stack is empty, the forest reaches the visited cells and all of them are stuck. */
  lemma StackDone(s: Shape, start: Position, edges: seq<Edge>, unvisited: set<Position>)
    requires WellFormed(s) && Covered(s, start, edges, unvisited, []) && OffStackStuck(s, unvisited, [])
    ensures Closed(s, Reached({start}, edges), LaidSet(s) - Reached({start}, edges))
  {
    Complement(LaidSet(s), unvisited, Reached({start}, edges));
  }

  /** Set algebra: the complement of the complement. */
  lemma Complement(laid: set<Position>, u: set<Position>, r: set<Position>)
    requires u <= laid && r == (laid - u) + {}
    ensures laid - r == u && r == laid - u
  {
  }

  /**
   * One turn of `iterative_backtracker`'s loop: pop `cur`, mark it visited, and when it has
   * unvisited neighbours link it to one of them and push `cur` and that neighbour.
   */
  method Visit(g: MazeGrid, ghost links0: Links, ghost start: Position, ghost edges: seq<Edge>,
               unvisited: set<Position>, stack: seq<Position>)
    returns (ghost edges': seq<Edge>, unvisited': set<Position>, stack': seq<Position>)
    requires g.Valid() && links0.Keys == LaidSet(g.shape)
    requires Within(links0, edges) && g.links == AddAll(links0, edges)
    requires Grown(g.shape, {start}, edges) && Covered(g.shape, start, edges, unvisited, stack)
    requires StackShape(g.shape, unvisited, stack) && OffStackStuck(g.shape, unvisited, stack)
    requires stack != []
    modifies g`links, g.cells`links
    ensures g.Valid()
    ensures Within(links0, edges') && g.links == AddAll(links0, edges')
    ensures Grown(g.shape, {start}, edges') && Covered(g.shape, start, edges', unvisited', stack')
    ensures StackShape(g.shape, unvisited', stack') && OffStackStuck(g.shape, unvisited', stack')
    ensures unvisited' == unvisited - {stack[|stack| - 1]}
    ensures Pending(unvisited', stack') < Pending(unvisited, stack)
      || (Pending(unvisited', stack') == Pending(unvisited, stack) && |stack'| < |stack|)
  {
    var cur := stack[|stack| - 1];
    var unvisitedNeighbors := Keep(g.Neighbors(cur), unvisited - {cur});
    edges' := edges;
    if unvisitedNeighbors != [] {
      var k :| 0 <= k < |unvisitedNeighbors|;
      var neighbor := unvisitedNeighbors[k];
      PushStep(g.shape, start, edges, unvisited, stack, cur, neighbor);
      LinkableStep(g.shape, cur, neighbor);
      g.Link(cur, neighbor);
      AddAllSnoc(links0, edges, Edge(cur, neighbor));
      edges' := edges + [Edge(cur, neighbor)];
      stack' := stack[..|stack| - 1] + [cur, neighbor];
    } else {
      PopStep(g.shape, start, edges, unvisited, stack, cur);
      stack' := stack[..|stack| - 1];
    }
    unvisited' := unvisited - {cur};
  }

  /** What `_recurse`'s loop keeps: a forest from the cells visited before the call, reaching exactly the visited cells, all stuck but `current`. */
  ghost predicate RecurseState(s: Shape, visited: set<Position>, edges: seq<Edge>, unvisited: set<Position>)
    requires WellFormed(s)
  {
    && Grown(s, visited, edges)
    && Reached(visited, edges) == LaidSet(s) - unvisited
    && Closed(s, Heads(edges), unvisited)
  }

  /** The unvisited cells left inside a call number fewer than the call's measure. */
  lemma RecurseShrinks(unvisited: set<Position>, current: Position, u1: set<Position>)
    requires u1 <= unvisited - {current}
    ensures |u1| < |unvisited + {current}|
  {
    SubsetCard(u1, unvisited - {current});
  }

  /** A link out to an unreached neighbour followed by a forest grown from there extends the forest. */
  lemma GrownThrough(s: Shape, visited: set<Position>, edges: seq<Edge>, current: Position, neighbor: Position, sub: seq<Edge>)
    requires WellFormed(s) && Grown(s, visited, edges)
    requires neighbor in Neighbors(s, current)
    requires current in Reached(visited, edges) && neighbor !in Reached(visited, edges)
    requires Grown(s, Reached(visited, edges) + {neighbor}, sub)
    ensures Grown(s, visited, edges + [Edge(current, neighbor)] + sub)
    ensures Reached(visited, edges + [Edge(current, neighbor)] + sub) == Reached(Reached(visited, edges) + {neighbor}, sub)
    ensures Heads(edges + [Edge(current, neighbor)] + sub) == Heads(edges) + ({neighbor} + Heads(sub))
  {
    var e := Edge(current, neighbor);
    var before := edges + [e];
    var all := before + sub;
    LinkableStep(s, current, neighbor);
    ForestSnoc(visited, edges, e);
    HeadsSnoc(edges, e);
    ForestAppend(visited, before, sub);
    HeadsAppend(before, sub);
    forall k | 0 <= k < |all|
      ensures all[k].to in Neighbors(s, all[k].from)
      ensures all[k].from in LaidSet(s) && all[k].to in LaidSet(s)
    {
      if k < |edges| {
        assert all[k] == edges[k];
      } else if k >= |before| {
        assert all[k] == sub[k - |before|];
      }
    }
  }

  /** Linking to `neighbor` and then the links of the recursive call keep the loop's state and shrink the unvisited set. */
  lemma RecurseStep(s: Shape, visited: set<Position>, edges: seq<Edge>, u1: set<Position>,
                    current: Position, neighbor: Position, sub: seq<Edge>, u2: set<Position>)
    requires WellFormed(s) && RecurseState(s, visited, edges, u1)
    requires neighbor in Neighbors(s, current) && neighbor in u1 && current in Reached(visited, edges)
    requires Grown(s, (LaidSet(s) - u1) + {neighbor}, sub) && u2 <= u1 - {neighbor}
    requires Reached((LaidSet(s) - u1) + {neighbor}, sub) == LaidSet(s) - u2
    requires Closed(s, {neighbor} + Heads(sub), u2)
    ensures RecurseState(s, visited, edges + [Edge(current, neighbor)] + sub, u2)
    ensures |u2| < |u1|
  {
    GrownThrough(s, visited, edges, current, neighbor, sub);
    ClosedShrinks(s, Heads(edges), u1, u2);
    ClosedUnion(s, Heads(edges), {neighbor} + Heads(sub), u2);
    SubsetCard(u2, u1 - {neighbor});
  }

  /**
   * `_recurse`: marks `current` visited, then, while it has an unvisited neighbour, links
   * it to one and recurses from there. Returns the new unvisited set. The links form a
   * forest grown from what was visited before, every cell it visits is among its links'
   * ends, and on return every cell it visited has no unvisited neighbour left.
   */
  method Recurse(g: MazeGrid, unvisited: set<Position>, current: Position)
    returns (unvisited': set<Position>, ghost edges: seq<Edge>)
    requires g.Valid() && unvisited <= LaidSet(g.shape) && current in LaidSet(g.shape)
    modifies g`links, g.cells`links
    ensures g.Valid()
    ensures Within(old(g.links), edges) && g.links == AddAll(old(g.links), edges)
    ensures unvisited' <= unvisited - {current}
    ensures Grown(g.shape, (LaidSet(g.shape) - unvisited) + {current}, edges)
    ensures Reached((LaidSet(g.shape) - unvisited) + {current}, edges) == LaidSet(g.shape) - unvisited'
    ensures Closed(g.shape, {current} + Heads(edges), unvisited')
    decreases |unvisited + {current}|, 2
  {
    ghost var visited := (LaidSet(g.shape) - unvisited) + {current};
    VisitOne(LaidSet(g.shape), unvisited, current);
    RecurseShrinks(unvisited, current, unvisited - {current});
    unvisited', edges := Explore(g, g.links, visited, [], unvisited - {current}, current);
    assert Closed(g.shape, {current}, unvisited');
    ClosedUnion(g.shape, {current}, Heads(edges), unvisited');
  }

  /** `_recurse`'s loop: while `current` has an unvisited neighbour, link to one and recurse from it. */
  method Explore(g: MazeGrid, ghost links0: Links, ghost visited: set<Position>, ghost edges: seq<Edge>,
                 unvisited: set<Position>, current: Position)
    returns (unvisited': set<Position>, ghost edges': seq<Edge>)
    requires g.Valid() && links0.Keys == LaidSet(g.shape)
    requires Within(links0, edges) && g.links == AddAll(links0, edges)
    requires unvisited <= LaidSet(g.shape) && RecurseState(g.shape, visited, edges, unvisited)
    requires current in Reached(visited, edges)
    modifies g`links, g.cells`links
    ensures g.Valid()
    ensures Within(links0, edges') && g.links == AddAll(links0, edges')
    ensures unvisited' <= unvisited && RecurseState(g.shape, visited, edges', unvisited')
    ensures Exhausted(g.shape, current, unvisited')
    decreases |unvisited| + 1, 1
  {
    unvisited', edges' := unvisited, edges;
    while true
      invariant g.Valid() && links0.Keys == LaidSet(g.shape)
      invariant Within(links0, edges') && g.links == AddAll(links0, edges')
      invariant unvisited' <= unvisited && RecurseState(g.shape, visited, edges', unvisited')
      invariant current in Reached(visited, edges')
      decreases |unvisited'|
    {
      var unvisitedNeighbors := Keep(g.Neighbors(current), unvisited');
      if unvisitedNeighbors != [] {
        var k :| 0 <= k < |unvisitedNeighbors|;
        SubsetCard(unvisited', unvisited);
        unvisited', edges' := Branch(g, links0, visited, edges', unvisited', current, unvisitedNeighbors[k]);
      } else {
        break;
      }
    }
  }

  /** One turn of `_recurse`'s loop that found `neighbor` unvisited: link to it and recurse from it. */
  method Branch(g: MazeGrid, ghost links0: Links, ghost visited: set<Position>, ghost edges: seq<Edge>,
                unvisited: set<Position>, current: Position, neighbor: Position)
    returns (unvisited': set<Position>, ghost edges': seq<Edge>)
    requires g.Valid() && links0.Keys == LaidSet(g.shape)
    requires Within(links0, edges) && g.links == AddAll(links0, edges)
    requires unvisited <= LaidSet(g.shape) && RecurseState(g.shape, visited, edges, unvisited)
    requires current in Reached(visited, edges)
    requires neighbor in Neighbors(g.shape, current) && neighbor in unvisited
    modifies g`links, g.cells`links
    ensures g.Valid()
    ensures Within(links0, edges') && g.links == AddAll(links0, edges')
    ensures unvisited' <= unvisited && RecurseState(g.shape, visited, edges', unvisited')
    ensures |unvisited'| < |unvisited|
    decreases |unvisited| + 1, 0
  {
    LinkableStep(g.shape, current, neighbor);
    g.Link(current, neighbor);
    AddAllSnoc(links0, edges, Edge(current, neighbor));
    ghost var before := edges + [Edge(current, neighbor)];
    assert unvisited + {neighbor} == unvisited;
    ghost var sub;
    unvisited', sub := Recurse(g, unvisited, neighbor);
    AddAllAppend(links0, before, sub);
    RecurseStep(g.shape, visited, edges, unvisited, current, neighbor, sub, unvisited');
    edges' := before + sub;
  }

  /** Set algebra: visiting `c` moves it from the unvisited cells to the visited ones. */
  lemma VisitOne(laid: set<Position>, u: set<Position>, c: Position)
    requires c in laid
    ensures (laid - u) + {c} == laid - (u - {c})
  {
  }

  /** `recursive_backtracker`: `_recurse` from a start taken out of the unvisited cells. */
  method RecursiveBacktracker(g: MazeGrid) returns (ghost start: Position, ghost edges: seq<Edge>)
    requires g.Valid()
    modifies g`links, g.cells`links
    ensures g.Valid()
    ensures Within(old(g.links), edges) && g.links == AddAll(old(g.links), edges)
    ensures NeighborEdges(g.shape, edges)
    ensures |g.cells| == 0 ==> edges == []
    ensures |g.cells| > 0 ==>
      && start in LaidSet(g.shape)
      && Forest({start}, edges)
      && Closed(g.shape, Reached({start}, edges), LaidSet(g.shape) - Reached({start}, edges))
      && Reached({start}, edges) == LaidSet(g.shape)
      && |edges| == |g.cells| - 1
  {
    g.LaidCount();
    var unvisited := g.PositionSet();
    var initial;
    initial, unvisited := MakeInitial(unvisited);
    edges := [];
    start := Position(0, 0);
    if initial.Some? {
      start := initial.value;
      assert (LaidSet(g.shape) - unvisited) + {start} == {start};
      unvisited, edges := Recurse(g, unvisited, initial.value);
      SpanningTree(g.shape, start, edges);
    }
  }
}
