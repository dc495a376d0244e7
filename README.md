# meanderer in Dafny

A model of the core of *meanderer*, a Rust library of maze generators and maze solvers.

A maze lives on a grid of cells:

- A **rectangular grid** has `width × height` cells, each with north, south, east and west neighbours.
- A **polar grid** has concentric rings around one centre cell. Each cell has a counter-clockwise neighbour, a clockwise neighbour, an inward parent and a list of outward children.

A cell holds a position, its neighbours, a set of **links** (the passages carved to adjacent cells), a **weight** (the distance the solver writes) and a **solution mark**.

The model covers:

- the position, cell and grid data types, including the older grid in `data.rs`;
- building both kinds of grid, including the polar wiring pass;
- lookup, neighbours, linking and unlinking;
- the ASCII picture of a rectangular grid;
- every generator in `algorithms.rs`: binary tree, sidewinder, Aldous–Broder, Wilson's, hunt-and-kill, recursive and iterative backtracker, dead ends and braid, simplified and true Prim's, and the growing tree with its selection functions;
- the solver: Dijkstra labelling, the downhill walk that marks a solution, furthest-on-rim and furthest-corners.

How state is represented:

- A grid is a `class` whose `cells` are `Cell` objects that the operations update in place.
- Beside the cells, the grid keeps three ghost mirrors of the cells' state, kept equal to them by `Valid()`:
  - `links`: a map from position to linked positions;
  - `weights`: a map from position to weight;
  - `marked`: the set of marked positions.
- Contracts are stated over these mirrors.
- Each generator returns a ghost list of the edges it carved, and promises that the grid's new links are the old links plus exactly those edges.
- Where the source builds a perfect maze, the contract also states that the edges form a **spanning tree** of the grid:
  - `Forest`: each edge enters a new cell from one already reached.
  - `Reached`: the edges reach every cell of the grid.
- `Connectivity.SpanningTree` proves that the two together give one edge fewer than there are cells.
- Dijkstra's result is stated against breadth-first **layers**: `Solver.LayerIsDistance` proves that layer `d` is exactly the set of cells at shortest-walk distance `d`. The solution walk is then proved to be a shortest path (`Solver.SolutionIsShortest`).

Randomness is modelled as nondeterministic choice (`:|`). Each generator's contract therefore holds for every outcome of every random draw. The source's own random number generator is not part of this model.

## Model

| member | source | states |
|---|---|---|
| Pos.New | src/data/pos.rs:11-15 | builds the position with exactly the given row and column, and it is the only position with them |
| Pos.EqualityIsStructural | src/data/pos.rs:5-9 | two positions are equal exactly when their rows and columns are equal (derived `Eq`) |
| Pos.LessIsStrictTotalOrder | src/data/pos.rs:5-9 | the derived order (row first, then column) is irreflexive, transitive, total and asymmetric |
| Pos.MinimumExists | src/data/pos.rs:5-9 | every non-empty set of positions has a least element under the derived order |
| Pos.MinOf | src/data/pos.rs:5-9 | the result belongs to the set and is below or equal to every member |
| Pos.Ascending | src/solver.rs:52-53 | the iteration order of a `BTreeSet` of links: every member exactly once, strictly ascending |
| Pos.DistinctCard | src/algorithms.rs:182-183 | a list of distinct positions has as many members as entries, as when cell positions are collected into a set |
| Text.Decimal | src/data/cell.rs:57-59 | the decimal text of a weight is non-empty, all digits, and has no leading zero unless it is "0" |
| Text.DecimalRoundTrip | src/data/cell.rs:57-59 | reading the label back as a decimal number gives the weight |
| Text.DecimalInjective | src/data/cell.rs:57-59 | different weights have different labels |
| Text.DecimalWidth | src/data/grid.rs:160-164 | a label is 1, 2 or 3 characters wide exactly when the weight is below 10, 100 or 1000 |
| Text.SignedDecimal | src/data.rs:47-49 | the text of a signed weight starts with '-' exactly when it is negative, and the rest is digits |
| Text.SignedRoundTrip | src/data.rs:47-49 | reading the signed label back gives the signed weight |
| Text.Center | src/data/grid.rs:160-164 | `{:^3}`: text at least as wide as the field is kept unchanged; shorter text is padded to the width, with the odd space on the right |
| Text.CenteredNumber | src/data/grid.rs:160-164 | a 1-digit label renders as " d ", a 2-digit label as "dd ", and a longer label unpadded |
| Opt.ToSeq | src/data/grid.rs:25-28 | an option as a list of zero or one element, holding the value when present |
| Cells.Cell.constructor | src/data/cell.rs:36-47 | a new cell has the given position, no neighbours, weight 0, no solution mark and no links |
| Cells.Cell.Polar | src/data/grid.rs:232-232 | a new polar cell has the given position, no ring neighbours, no outward children, weight 0, no mark and no links |
| Cells.Cell.Label | src/data/cell.rs:57-59 | the label is all digits and reads back as the cell's weight |
| Cells.Cell.Link | src/data/cell.rs:61-63 | the links become the old links plus the other position |
| Cells.Cell.Unlink | src/data/cell.rs:65-67 | the links become the old links minus the other position; unlinking an absent position changes nothing |
| Cells.Cell.UpdateWeight | src/data/cell.rs:107-109 | the weight becomes the given value |
| Cells.Cell.MarkInSolution | src/data/cell.rs:115-117 | the cell is marked as part of the solution |
| Cells.IsLinkedAgrees | src/data/cell.rs:69-75 | `is_linked` on a cell agrees with `is_linked_pos` on that cell's position |
| Cells.EqualsIsPositionEquivalence | src/data/cell.rs:127-131 | cell equality compares positions only, and is reflexive, symmetric and transitive |
| Topology.RectOffset | src/data/grid.rs:127-133 | in a rectangular grid, row `r` starts at slot `r × width` |
| Topology.LaidSet | src/data/grid.rs:231-255 | the set of positions that have a cell slot, exactly those laid out |
| Topology.IndexInRange | src/data/grid.rs:299-305 | a laid position's slot lies within its own row's block, and within the cell vector |
| Topology.IndexInjective | src/data/grid.rs:299-305 | two laid positions with the same slot are the same position |
| Topology.ContainedIsLaid | src/data/grid.rs:315-318 | every contained position has a slot; the only laid position not contained is the centre of a polar grid with zero rings |
| Topology.Ratio | src/data/grid.rs:261-263 | a ring's column count is a whole multiple (at least 1) of the ring inside it |
| Topology.NeighborsOf | src/data/cell.rs:81-101 | a cell's neighbour list holds exactly its present compass neighbours, or exactly its ring neighbours and outward children |
| Topology.Block | src/data/grid.rs:284-286 | `k` consecutive columns of a ring, starting at `base` |
| Topology.RectNeighborsExact | src/data/grid.rs:86-117 | in a rectangular grid, the neighbours of a contained cell are exactly the contained cells one step north, south, east or west |
| Topology.OutwardChild | src/data/grid.rs:257-289 | every outward child of a polar cell is contained and has that cell as its inward parent |
| Topology.InwardParent | src/data/grid.rs:257-289 | the inward parent of a polar cell is contained and lists the cell among its outward children |
| Topology.RingSteps | src/data/grid.rs:266-279 | clockwise and counter-clockwise steps stay in the grid and undo each other, wrapping at the ends of the ring |
| Topology.PolarNeighbors | src/data/grid.rs:257-289 | off the centre, a polar cell's neighbours are exactly its counter-clockwise, clockwise and inward neighbours and its outward children; the centre has only children |
| Topology.NeighborsContained | src/data/grid.rs:21-29 | every neighbour the grid reports is a contained cell |
| Topology.NeighborsSymmetric | src/data/grid.rs:86-117 | adjacency is symmetric: if `q` neighbours `p` then `p` neighbours `q` |
| Topology.OuterRingsShared | src/data/grid.rs:236-245 | every ring outside the centre has more than one column |
| Topology.NotOwnNeighbor | src/data/grid.rs:86-117 | no cell is its own neighbour |
| Topology.FourRingExample | src/data/grid.rs:620-626 | a four-ring polar grid with 1, 6, 12 and 24 columns is well formed, and cell (2, 1) has the five neighbours the test lists, in order |
| LinkGraph.AddEdge | src/data/grid.rs:38-51 | linking `a` and `b` adds `b` to `a`'s links and `a` to `b`'s links, and changes no other cell |
| LinkGraph.AddEdgeSwap | src/data/grid.rs:38-51 | linking is symmetric in its arguments |
| LinkGraph.AddEdgeKeepsSymmetric | src/data/grid.rs:38-51 | linking keeps the link relation symmetric |
| LinkGraph.AddEdgeKeepsAdjacent | src/data/grid.rs:38-51 | linking two neighbours keeps every link between neighbours |
| LinkGraph.AddEdgeGrows | src/data/grid.rs:38-51 | linking two neighbours only adds links, and only between neighbours |
| LinkGraph.AddEdgeShrinksLinkFree | src/data/grid.rs:38-51 | linking never adds a link-free cell, and a cell that had no links stops being link-free |
| LinkGraph.GrowsTransitive | src/data/grid.rs:38-51 | only-adding-links composes over successive link operations |
| LinkGraph.RemoveEdge | src/data/grid.rs:53-66 | unlinking removes `b` from `a`'s links and `a` from `b`'s links, and changes no other cell |
| LinkGraph.RemoveEdgeKeepsSymmetric | src/data/grid.rs:53-66 | unlinking keeps the link relation symmetric |
| LinkGraph.LinkThenUnlink | src/data/grid.rs:481-518 | linking two unlinked cells and then unlinking them restores the links exactly |
| Grids.MazeGrid.Grid | src/data/grid.rs:86-117 | a rectangular grid of `height × width` cells in row-major order, wired to their compass neighbours, with no links, zero weights and no marks |
| Grids.MazeGrid.PolarGrid | src/data/grid.rs:217-229 | a polar grid of the given rings, cells laid ring by ring and wired, with no links, zero weights and no marks |
| Grids.MazeGrid.SetNeighbors | src/data/grid.rs:257-289 | after the wiring pass, every cell's ring neighbours and outward children are those of the polar topology |
| Grids.MazeGrid.WireCell | src/data/grid.rs:258-288 | one iteration of the wiring pass changes the cells' neighbours exactly as the reference step `Wire` does |
| Grids.MazeGrid.SetRingFields | src/data/grid.rs:265-282 | sets the cell's counter-clockwise, clockwise and inward neighbours, keeps its children and changes no other cell |
| Grids.MazeGrid.AppendOutward | src/data/grid.rs:284-286 | appends the cell to its parent's outward children and changes no other cell |
| Grids.MazeGrid.Positions | src/data/grid.rs:231-255 | the cells' positions in slot order, each cell at its own slot |
| Grids.MazeGrid.EveryLaidHasCell | src/data/grid.rs:231-255 | every laid position has a cell at its slot that carries that position |
| Grids.MazeGrid.PositionSet | src/data/grid.rs:231-255 | the positions of all cells are exactly the laid positions |
| Grids.MazeGrid.LaidCount | src/data/grid.rs:231-255 | there are as many cells as laid positions |
| Grids.MazeGrid.SlotOf | src/data/grid.rs:299-305 | a contained position's cell sits at its slot; no cell carries a position outside the grid, except the centre of a zero-ring polar grid |
| Grids.MazeGrid.IndexFormula | src/data/grid.rs:299-305 | the slot of a contained position is `col + row × width`, or `col + row_offsets[row]` for a polar grid |
| Grids.MazeGrid.Contains | src/data/grid.rs:143-146 | exactly the positions of the topology, each with a cell at its slot |
| Grids.MazeGrid.Get | src/data/grid.rs:127-133 | returns a cell exactly for contained positions, and that cell carries the position and is the one at its slot |
| Grids.MazeGrid.GetPos | src/data/grid.rs:31-36 | returns the position itself exactly when it is contained |
| Grids.MazeGrid.Neighbors | src/data/grid.rs:21-29 | the cell's neighbour list from its wiring: the topology's neighbours, all contained; empty for a position outside the grid |
| Grids.MazeGrid.HasLinks | src/data/grid.rs:68-73 | true exactly when the position is contained and its cell has at least one link |
| Grids.MazeGrid.NumLinks | src/algorithms.rs:336-336 | the number of links of a contained cell, and 0 outside the grid |
| Grids.MazeGrid.RandomPos | src/algorithms.rs:358-358 | some contained position, or nothing exactly when no position is contained |
| Grids.MazeGrid.LinkCells | src/data/grid.rs:38-51 | each of the two cells gains the other in its links; no other cell changes |
| Grids.MazeGrid.UnlinkCells | src/data/grid.rs:53-66 | each of the two cells loses the other from its links; no other cell changes |
| Grids.MazeGrid.Link | src/data/grid.rs:38-51 | the grid's links become `AddEdge` of the old links |
| Grids.MazeGrid.Unlink | src/data/grid.rs:53-66 | the grid's links become `RemoveEdge` of the old links |
| Grids.MazeGrid.WeightOf | src/data/cell.rs:103-105 | the weight of the cell at the position |
| Grids.MazeGrid.UpdateWeightAt | src/solver.rs:20-21 | the weight at the position becomes the given value and no other weight changes |
| Grids.MazeGrid.MarkAt | src/solver.rs:47-49 | the position is added to the marked set and nothing else is marked |
| PolarWiring.ChildrenBefore | src/data/grid.rs:257-289 | the number of a cell's outward children already appended before slot `i`, never more than it has |
| PolarWiring.Partial | src/data/grid.rs:257-289 | the neighbours a cell has after the wiring pass has handled the slots before `i` |
| PolarWiring.ChildBlock | src/data/grid.rs:257-289 | a cell's outward children occupy one block of consecutive slots in the next ring |
| PolarWiring.InChildBlock | src/data/grid.rs:257-289 | a cell lies in another cell's child block exactly when that other cell is its inward parent |
| PolarWiring.PartialStart | src/data/grid.rs:257-289 | before the pass, a cell has no ring neighbours and no children |
| PolarWiring.PartialEnd | src/data/grid.rs:257-289 | after the pass over every slot, each cell has exactly the neighbours of the polar topology |
| PolarWiring.PartialStep | src/data/grid.rs:257-289 | handling slot `i` sets that cell's ring fields, appends it to its parent's children, and changes no other cell |
| PolarWiring.ParentSlot | src/data/grid.rs:257-289 | a cell's parent comes earlier in slot order |
| PolarWiring.Wire | src/data/grid.rs:258-288 | the reference step of the pass: same number of cells |
| PolarWiring.CentreStep | src/data/grid.rs:257-289 | the centre cell's iteration leaves the partial wiring as it was |
| PolarWiring.WireStep | src/data/grid.rs:257-289 | one step of the pass advances the partial wiring by one slot |
| PolarWiring.WireStepAt | src/data/grid.rs:257-289 | the step moves each cell from its state before slot `i` to its state after it |
| Growth.AddAll | src/algorithms.rs:87-89 | applying a list of links keeps the set of cells |
| Growth.AddAllKeepsSymmetric | src/algorithms.rs:87-89 | applying a list of links keeps the link relation symmetric |
| Growth.AddAllLinks | src/algorithms.rs:87-89 | after applying a list of links, `q` is linked to `p` exactly when it was before or some listed edge joins them |
| Growth.AddAllAppend | src/algorithms.rs:87-89 | applying two lists one after the other is applying their concatenation |
| Growth.AddAllBackward | src/algorithms.rs:147-155 | applying the edges reversed and in reverse order gives the same links |
| Growth.AddAllExtends | src/algorithms.rs:87-89 | applying neighbour-to-neighbour links only adds links, and only between neighbours |
| Growth.Backward | src/algorithms.rs:147-155 | the edge list reversed in order and in direction |
| Growth.ForestSnoc | src/algorithms.rs:76-79 | adding an edge from a reached cell to an unreached one keeps a forest and reaches one more cell |
| Growth.ForestAppend | src/algorithms.rs:269-273 | a forest followed by a forest grown from where the first ended is one forest |
| Growth.ForestCount | src/algorithms.rs:76-79 | a forest's edges enter pairwise distinct cells, none of them a root: one edge per newly reached cell |
| Growth.ForestByOrder | src/algorithms.rs:147-155 | edges that each start at a root or at an earlier edge's end, and that enter distinct new cells, form a forest |
| Growth.GrownSnoc | src/algorithms.rs:298-303 | adding a neighbour edge to an unreached cell keeps a grown forest of neighbour edges |
| Generators.Keep | src/algorithms.rs:224-227 | the entries that are in the kept set, and no more entries than before |
| Generators.Outside | src/solver.rs:22-26 | the entries outside the given set |
| Generators.Members | src/algorithms.rs:133-135 | the set of entries of a path |
| Generators.Without | src/algorithms.rs:143-143 | the entries other than `x`, strictly fewer when `x` was present |
| Generators.MakeInitial | src/algorithms.rs:113-124 | picks nothing exactly when the set is empty; otherwise picks a member and removes it from the set |
| Generators.LinkEdge | src/data/grid.rs:38-51 | linking one more edge extends the list of applied edges by it |
| Generators.ApplyLinks | src/algorithms.rs:87-89 | applying the collected links leaves the grid's links as the old ones plus exactly those edges |
| Connectivity.ClosedCovers | src/data/grid.rs:86-117 | the grid is connected: a set holding one cell and closed under neighbours holds every cell (rectangular and polar) |
| Connectivity.SpanningTree | src/algorithms.rs:280-307 | a forest of neighbour edges from one cell whose reached set is closed under neighbours reaches every cell, with one edge fewer than cells |
| Connectivity.Range | src/algorithms.rs:58-60 | exactly the indices below `n`, `n` of them |
| Connectivity.Arrange | src/algorithms.rs:58-60 | reorders and reorients a link list into a forest from one root that joins only cells the list joins, accounting for every entry |
| Connectivity.SameJoins | src/algorithms.rs:58-60 | two link lists that join the same pairs give the same links |
| BinaryTree.Choices | src/algorithms.rs:14-22 | the south and east positions that are in the grid, and nothing else |
| BinaryTree.ChoicesAt | src/algorithms.rs:14-22 | every choice is a neighbour in a later slot; there is no choice only at the last slot |
| BinaryTree.Binary | src/algorithms.rs:10-28 | adds one link from each cell but the last to its south or east neighbour, and nothing else |
| BinaryTree.LinkCell | src/algorithms.rs:24-26 | one iteration: links the cell south or east when it can, and only at the last slot links nothing |
| BinaryTree.BinarySpanning | src/algorithms.rs:10-28 | the links, read backwards, form a spanning tree grown from the last cell |
| BinaryTree.BinaryTree | src/algorithms.rs:10-28 | on a non-empty grid the carved links form a spanning tree of neighbour edges rooted at the last cell |
| Sidewinder.Consider | src/algorithms.rs:37-55 | the run gains the cell; the run closes exactly at the east boundary or by the coin off the bottom row; closing adds one south link from a run member, otherwise an east link when there is one |
| Sidewinder.SidewinderRow | src/algorithms.rs:37-56 | one row: east links along each run, and, off the bottom row, one south link per run |
| Sidewinder.AllRows | src/algorithms.rs:34-57 | every row's links; the bottom row is one east-linked run, and every other cell drains south through its run |
| Sidewinder.SidewinderCovers | src/algorithms.rs:34-57 | the collected links connect every cell to the bottom-right corner |
| Sidewinder.SidewinderSpanning | src/algorithms.rs:34-57 | the links, rearranged, form a spanning tree from the bottom-right corner with the same link set |
| Sidewinder.TreeOrder | src/algorithms.rs:57-60 | the collected links can be listed as a spanning tree from the corner with the same links |
| Sidewinder.Sidewinder | src/algorithms.rs:30-61 | adds one south or east link per cell but one; on a non-empty grid the links form a spanning tree rooted at the bottom-right corner |
| AldousBroder.WalkStep | src/algorithms.rs:74-84 | a step to a linked neighbour only moves; a step to a new neighbour adds its edge and counts one cell fewer to visit |
| AldousBroder.Wander | src/algorithms.rs:68-85 | the collected links are a forest of neighbour edges from the start; when the walk finishes they reach every cell with one edge per cell but one |
| AldousBroder.AldousBroder | src/algorithms.rs:63-90 | when the walk finishes, the links added form a spanning tree of neighbour edges; when it does not, the grid is unchanged; an empty grid always finishes with no links |
| Wilsons.PathEdges | src/algorithms.rs:150-153 | the edges between consecutive path entries, one fewer than entries |
| Wilsons.Calls | src/algorithms.rs:150-153 | the same links read from the visited end: entry `k` steps from cell `n - 1 - k` of the path into cell `n - 2 - k` |
| Wilsons.CallsJoin | src/algorithms.rs:150-153 | reading the links from the visited end joins exactly the pairs the path's own links join |
| Wilsons.StepAt | src/algorithms.rs:172-175 | in a walk, every cell after the first is a neighbour of the one before it |
| Wilsons.StepsPrefix | src/algorithms.rs:161-166 | cutting a walk short leaves a walk |
| Wilsons.StepsSnoc | src/algorithms.rs:172-175 | stepping from the last cell to one of its neighbours extends a walk |
| Wilsons.Choices | src/algorithms.rs:138-144 | the neighbours of the path's last cell, except the cell before it |
| Wilsons.FirstIndex | src/algorithms.rs:161-166 | the first index at which the path holds `x` |
| Wilsons.TruncateKeeps | src/algorithms.rs:159-166 | cutting the loop keeps a simple path of unvisited neighbours from the same start |
| Wilsons.ExtendKeeps | src/algorithms.rs:172-175 | stepping to a new unvisited neighbour keeps a simple path |
| Wilsons.ArriveKeeps | src/algorithms.rs:147-149 | stepping onto a visited cell ends the walk with a path ready to link |
| Wilsons.Step | src/algorithms.rs:137-176 | one loop turn: no choice leaves the path unchanged; a visited cell ends the walk; a cell on the path cuts the loop back to it; a new cell extends the path |
| Wilsons.Move | src/algorithms.rs:146-175 | the three cases of the chosen neighbour, each with its new path |
| Wilsons.Erase | src/algorithms.rs:137-177 | a loop-erased random walk: when it finishes, the path is a simple path of unvisited cells ending on a visited one |
| Wilsons.LinkPath | src/algorithms.rs:147-155 | links each path cell to the next and removes every path cell from the unvisited set |
| Wilsons.Visit | src/algorithms.rs:150-155 | one iteration of the linking loop keeps its invariant one index further |
| Wilsons.WalkOrder | src/algorithms.rs:147-155 | the walk's edges, read from the visited end, are a forest of neighbour edges over the visited cells |
| Wilsons.WalkJoin | src/algorithms.rs:147-155 | joining the walk keeps one tree from the initial cell that now reaches the walk's cells too |
| Wilsons.WalkCovers | src/algorithms.rs:147-155 | the joined walk reaches exactly the visited cells plus the path's cells |
| Wilsons.Walk | src/algorithms.rs:106-108 | one walk keeps the maze a tree over the visited cells, uses fuel and never grows the unvisited set |
| Wilsons.WovenEnd | src/algorithms.rs:99-110 | when no cell is unvisited, the tree reaches every cell |
| Wilsons.Weave | src/algorithms.rs:99-110 | walks until the fuel runs out or every cell is visited, keeping the tree |
| Wilsons.Wilsons | src/algorithms.rs:92-111 | the links added are a forest of neighbour edges from the initial cell, spanning the grid when the walks finish; an empty grid finishes with no links |
| HuntAndKill.KeepLinked | src/algorithms.rs:224-227 | the neighbours that have links |
| HuntAndKill.Probe | src/algorithms.rs:222-233 | reports a linked neighbour of the cell exactly when the cell is huntable (has no links and has a linked neighbour) |
| HuntAndKill.Hunt | src/algorithms.rs:220-235 | the first huntable cell in slot order, with a linked neighbour, or none when no cell is huntable |
| HuntAndKill.Kill | src/algorithms.rs:220-235 | hunting links the first huntable cell to a linked neighbour, or changes nothing when none is huntable |
| HuntAndKill.Step | src/algorithms.rs:200-242 | one call: walks to an unvisited neighbour, or hunts, or stops; stopping changes nothing and happens only when the current cell is stuck and nothing is huntable |
| HuntAndKill.LinkedNotHuntable | src/algorithms.rs:223-223 | a cell with links is never hunted |
| HuntAndKill.LonelyNotHuntable | src/algorithms.rs:224-227 | a cell with no linked neighbour is never hunted |
| HuntAndKill.HuntDone | src/algorithms.rs:190-196 | when the loop stops, the reached cells are closed under neighbours |
| HuntAndKill.Turn | src/algorithms.rs:191-195 | one turn keeps the walk's invariant and strictly shrinks the work left |
| HuntAndKill.Walk | src/algorithms.rs:190-196 | the loop carves a grown forest whose reached set is closed under neighbours |
| HuntAndKill.Run | src/algorithms.rs:180-198 | on a link-free non-empty grid, the carved links form a spanning tree of neighbour edges from the start |
| Backtracking.PushStep | src/algorithms.rs:298-303 | linking the top of the stack to an unvisited neighbour and pushing both keeps the invariant and shrinks the work left |
| Backtracking.PopStep | src/algorithms.rs:289-290 | popping a cell with no unvisited neighbour keeps the invariant |
| Backtracking.Visit | src/algorithms.rs:289-304 | one loop turn removes the popped cell from the unvisited set and keeps the invariant |
| Backtracking.Drain | src/algorithms.rs:289-305 | runs until the stack is empty, leaving a grown forest whose reached cells are all visited and stuck |
| Backtracking.StackDone | src/algorithms.rs:289-305 | with the stack empty, the reached cells are closed under neighbours |
| Backtracking.IterativeBacktracker | src/algorithms.rs:280-307 | on a non-empty grid, the links added form a spanning tree of neighbour edges from the start |
| Backtracking.RecurseStep | src/algorithms.rs:269-273 | a recursive call on a fresh neighbour extends the tree and shrinks the unvisited set |
| Backtracking.Recurse | src/algorithms.rs:254-278 | the call grows a forest from the current cell over the cells it visits, closed under neighbours |
| Backtracking.Explore | src/algorithms.rs:261-277 | the loop ends with no unvisited neighbour of the current cell |
| Backtracking.Branch | src/algorithms.rs:269-273 | linking to an unvisited neighbour and recursing keeps the invariant and shrinks the unvisited set |
| Backtracking.RecursiveBacktracker | src/algorithms.rs:244-252 | on a non-empty grid, the links added form a spanning tree of neighbour edges from the start |
| Braid.DeadEndsBelow | src/algorithms.rs:309-315 | among the first `n` cells, exactly the dead ends, each before slot `n` |
| Braid.DeadEndsOrdered | src/algorithms.rs:309-315 | the dead ends come in slot order |
| Braid.DeadEnds | src/algorithms.rs:309-315 | exactly the cells with fewer than two links, in slot order |
| Braid.SingleLinked | src/algorithms.rs:334-338 | the neighbours with exactly one link |
| Braid.Choose | src/algorithms.rs:325-347 | picks a neighbour the dead end is not linked to, preferring one with exactly one link, or none exactly when there is no such neighbour |
| Braid.OpenBefore | src/algorithms.rs:325-347 | a neighbour still unlinked after braiding was unlinked before it |
| Braid.BraidAt | src/algorithms.rs:320-352 | one dead end is either skipped or linked to an unlinked neighbour |
| Braid.Braid | src/algorithms.rs:317-353 | lists the dead ends found before braiding, and adds only links from a listed dead end to a neighbour it was not linked to |
| Prims.Unlinked | src/algorithms.rs:368-371 | the neighbours with no links |
| Prims.Interior | src/algorithms.rs:387-391 | exactly the contained positions |
| Prims.FrontierDone | src/algorithms.rs:362-379 | with no active cell left, the links are a spanning tree from the start |
| Prims.GrowingDone | src/algorithms.rs:362-379 | with no active cell left, on a link-free grid, the links are a spanning tree from the start |
| Prims.Grow | src/algorithms.rs:368-377 | links a free neighbour and activates it, or retires the cell when it has none |
| Prims.SimplifiedPrims | src/algorithms.rs:355-381 | starts only when the grid has a cell; on a link-free grid the links form a spanning tree from the start |
| Prims.RandomTurn | src/algorithms.rs:363-378 | one turn on a random active cell keeps the invariant and makes progress |
| Prims.DrawCosts | src/algorithms.rs:387-391 | a cost below 100 for every cell |
| Prims.Least | src/algorithms.rs:396-399 | an active cell of least cost |
| Prims.CheapestIndex | src/algorithms.rs:401-404 | the first index of least cost |
| Prims.FirstCheapest | src/algorithms.rs:401-404 | a free neighbour of least cost, or none exactly when there is none |
| Prims.TruePrims | src/algorithms.rs:383-414 | starts only when the grid has a cell; on a link-free grid the links form a spanning tree from the start |
| Prims.Cheapest | src/algorithms.rs:395-412 | the loop runs until no cell is active, keeping the invariant |
| Prims.CheapestTurn | src/algorithms.rs:396-411 | the cheapest active cell links its cheapest free neighbour, or retires |
| Prims.Insert | src/algorithms.rs:438-438 | inserting into the linked set adds the element and keeps the entries distinct |
| Prims.Back | src/algorithms.rs:463-463 | an entry of the set, or none exactly when it is empty |
| Prims.BackInsert | src/algorithms.rs:463-463 | the back of the set is the element inserted last |
| Prims.RandomChoice | src/algorithms.rs:446-457 | an entry, or none exactly when the set is empty |
| Prims.Select | src/algorithms.rs:446-474 | the selection functions: an entry, or none exactly when empty; last selection gives the back |
| Prims.GrowingTree | src/algorithms.rs:416-444 | starts only when the grid has a cell; on a link-free grid the links form a spanning tree from the start |
| Prims.TreeTurn | src/algorithms.rs:427-442 | one turn on the selected cell keeps the invariant and makes progress |
| Prims.GrowList | src/algorithms.rs:432-441 | links a free neighbour and inserts it, or removes the cell |
| Solver.Graph | src/solver.rs:20-28 | the links of the cells the grid contains |
| Solver.GraphSymmetric | src/solver.rs:20-28 | the solver's link graph is symmetric |
| Solver.LayerIsDistance | src/solver.rs:6-34 | layer `d` of the breadth-first search is exactly the cells whose shortest walk from the start has `d` steps |
| Solver.LinkSpansLayers | src/solver.rs:6-34 | linked cells lie in the same or adjacent layers |
| Solver.LayerHasParent | src/solver.rs:6-34 | every cell of layer `d > 0` has a link into layer `d - 1` |
| Solver.Visit | src/solver.rs:15-29 | visiting a contained cell sets its weight to the distance and queues its unvisited links in ascending order |
| Solver.Expand | src/solver.rs:13-30 | one iteration of the inner loop keeps the scan invariant |
| Solver.Round | src/solver.rs:11-33 | one round labels the current layer, builds the next front and makes progress |
| Solver.Dijkstra | src/solver.rs:6-34 | every reachable cell weighs its distance from the start, and every other cell keeps its weight |
| Solver.DownhillUnique | src/solver.rs:51-60 | the downhill step is determined: at most one answer |
| Solver.EarlierInOrder | src/solver.rs:52-52 | links scanned before index `i` cover every link below it in order |
| Solver.FirstLighter | src/solver.rs:52-59 | the first link lighter than the cell, with every earlier link no lighter |
| Solver.Lower | src/solver.rs:51-60 | the downhill step: the first link, in ascending order, lighter than the cell, or none |
| Solver.SolveStep | src/solver.rs:45-60 | marks the cell when it exists and takes the downhill step |
| Solver.WalkDown | src/solver.rs:43-61 | walks downhill from the target until no link is lighter, marking each cell on the way |
| Solver.Solve | src/solver.rs:36-62 | labels from the start, then marks exactly the cells of the downhill walk from the target |
| Solver.SolutionIsShortest | src/solver.rs:36-62 | after labelling, the downhill walk from a reachable target at distance `d` has `d + 1` cells, descends one layer per step and ends at the start |
| Furthest.FirstHeaviestUnique | src/solver.rs:69-78 | at most one column is the first heaviest |
| Furthest.HeaviestInRing | src/solver.rs:66-80 | the first column of largest weight in the ring |
| Furthest.FurthestOnRim | src/solver.rs:64-81 | labels from the given cell and returns the first heaviest cell of the outermost ring |
| Furthest.HeaviestIsFurthest | src/solver.rs:64-81 | after labelling, the chosen cell is at least as far from the start as any other cell of the ring |
| Furthest.Corners | src/solver.rs:86-95 | four positions, each at a corner of the grid |
| Furthest.LastMaxUnique | src/solver.rs:99-108 | at most one index is the last maximum |
| Furthest.LastMaxIndex | src/solver.rs:99-108 | `max_by_key` gives the last index of largest key |
| Furthest.StableSortLast | src/solver.rs:112-114 | after a stable sort by key, the last entry is the last maximum |
| Furthest.CornerWeights | src/solver.rs:99-105 | the weights of the four corners, in order |
| Furthest.CornerRound | src/solver.rs:97-110 | labels from the anchor corner and records the last heaviest corner with its weight |
| Furthest.CornerRounds | src/solver.rs:97-110 | four rounds, each labelling from its corner on the weights the previous one left |
| Furthest.FurthestCorners | src/solver.rs:83-116 | returns the anchor and corner of the last candidate of largest distance |
| Render.Captions | src/data/cell.rs:57-59 | a caption for every weighed cell |
| Render.DecimalCaptions | src/data/cell.rs:57-59 | captions have no line break, and fit three columns exactly when the weight is below 1000 |
| Render.CellPieces | src/data/grid.rs:158-187 | the three pieces the loop draws for one cell: its label field, its east wall and its floor |
| Render.RowLines | src/data/grid.rs:152-192 | the top and bottom lines of one row of the picture |
| Render.RectString | src/data/grid.rs:148-196 | the whole picture, line by line, with each line ended by a line break |
| Render.ToString | src/data/grid.rs:320-322 | the picture for a rectangular grid, and the fixed message for a polar grid |
| Render.PictureLines | src/data/grid.rs:148-196 | the picture has `2 × height + 1` lines; the first is `+---+…+`, `4 × width + 1` wide |
| Render.TopLineShows | src/data/grid.rs:158-176 | in a cell's top line: its centred label or blanks, then an open or closed east wall as its east link says |
| Render.BotLineShows | src/data/grid.rs:178-187 | in a cell's bottom line: an open or closed floor as its south link says |
| Render.SamplePicture | src/data/grid.rs:521-601 | the 2 × 3 grid of the source's test renders the expected seven lines with and without labels |
| Ascii.LinesLayout | src/data/grid.rs:148-196 | the header, then a top and a bottom line per row |
| Ascii.LineCount | src/data/grid.rs:148-196 | the output has one line break per line and ends with one |
| Ascii.HeaderShape | src/data/grid.rs:150-151 | the header is `+` every fourth column and `-` between |
| Ascii.TopLineColumns | src/data/grid.rs:158-176 | a top line is `4 × width + 1` wide; cell `c` is its field and its east wall |
| Ascii.BotLineColumns | src/data/grid.rs:178-187 | a bottom line is `4 × width + 1` wide; cell `c` is its floor |
| Legacy.Cell.constructor | src/data.rs:36-45 | a new cell of the older grid has the given position, weight 0 and no links |
| Legacy.Cell.Label | src/data.rs:47-49 | the signed decimal text of the `i32` weight, which reads back as the weight |
| Legacy.Cell.Link | src/data.rs:51-53 | the links gain the other position |
| Legacy.Cell.Unlink | src/data.rs:55-57 | the links lose the other position |
| Legacy.EqualsIsPositionEquivalence | src/data.rs:20-31 | cell equality compares positions only, and is an equivalence |
| Legacy.Grid.constructor | src/data.rs:71-85 | `width × height` cells in row-major order, with no links and zero weights |
| Legacy.Grid.SlotOf | src/data.rs:92-98 | each position's cell sits at slot `col + row × width`, and only there |
| Legacy.Grid.Get | src/data.rs:92-98 | a cell exactly for in-range coordinates, the one carrying that position |
| Legacy.Grid.GetPos | src/data.rs:111-117 | the position exactly for in-range coordinates |
| Legacy.Grid.Link | src/data.rs:119-128 | the links become `AddEdge` of the old links |
| Legacy.Grid.Unlink | src/data.rs:130-139 | the links become `RemoveEdge` of the old links |
| Legacy.SignedCaptionsPlain | src/data.rs:147-151 | signed captions contain no line break |
| Legacy.ToString | src/data.rs:142-189 | the same ASCII picture as the current grid, captioned with signed weights |

## Left out

- AldousBroder.AldousBroder: the source's `while unvisited > 0` loop (src/algorithms.rs:74) is unbounded. The model gives it a `fuel` budget and reports `finished`. The spanning-tree promise holds only when `finished`; with the fuel spent, the grid is unchanged.
- Wilsons.Wilsons: the outer loop (src/algorithms.rs:99) and the walk loop (137) are unbounded. The model gives them `fuel` and reports `finished`; the spanning tree is promised only when `finished`.
- Wilsons.Step: in the source, when the current cell's only neighbour is the cell it came from (the end of a 1 × N corridor), `retain` (src/algorithms.rs:143) empties the choices and `_walk` spins forever. The model returns the path unchanged, so the walk just burns fuel there.
- Cells.Cell.UpdateWeight: weights are `nat`, not `u32` (src/data/cell.rs:16-17). Dijkstra's `dist` cannot wrap in the model; in the source it would need more than 2^32 layers.
- Legacy.Cell.Label: the older grid's weight is `i32`, kept as a bounded `newtype`; no operation of that grid changes it.
- Topology.WellFormed: a polar grid's column counts are an input. The source computes them with `f32`, `PI` and `round` (src/data/grid.rs:236-245), and floating point is not modelled. The model requires each ring's count to be a positive multiple of the ring inside it, and the first ring to have more than one column, as the float code gives (6).
- Grids.MazeGrid.PolarGrid: takes the column counts as a parameter for the same reason.
- Sidewinder.Consider: the coin `gen_range(0, 3) == 0` is a free boolean; its one-in-three bias is not modelled.
- Braid.Braid: the comparison of a random `f32` against `dead_end_removal_probability` is a free skip-or-braid choice per dead end. The probability parameter is not modelled.
- Prims.DrawCosts: the `u8` costs drawn by `gen_range(0, 100)` are any table of costs below 100.
- Prims.Least: which of several equally cheap active cells `HashSet` iteration yields first is not modelled. Any cell of least cost may be chosen.
- Grids.MazeGrid.RandomPos: `random_pos` is called but not defined in the source files modelled. The model returns any contained position, or nothing when none is contained. A polar grid of zero rings has a centre cell that `contains` rejects, so it returns nothing there.
- Grids.MazeGrid.NumLinks: `num_links` is called but not defined in the source files modelled. The model counts the links of a contained cell, and gives 0 outside the grid.
- Grids.MazeGrid.Link: `link` unwraps `get_mut` and panics on a position outside the grid (src/data/grid.rs:44, 48). The model requires both positions to be contained instead.
- Grids.MazeGrid.Unlink: as for `link`, the panic becomes a precondition.
- Legacy.Grid.Link: as above, for the older grid's `unwrap` (src/data.rs:121, 125).
- Legacy.Grid.Unlink: as above.
- Furthest.FurthestOnRim: `grid.rows - 1` underflows and panics on a grid of zero rings (src/solver.rs:66). The model requires at least one ring.
- Furthest.FurthestCorners: the corner lookups unwrap and panic on an empty grid (src/solver.rs:87-92). The model requires a width and height of at least 1.
- BinaryTree.BinaryTree: states the spanning tree only for a non-empty grid. BinaryTree.Binary covers the empty grid, where nothing is linked.
- Sidewinder.Sidewinder: the spanning tree is stated for a grid with at least one row and one column; on an empty grid only the link count (0) is stated.
- HuntAndKill.Run: the spanning tree is promised only for a grid that starts with no links, as the generators are used. On a grid that already has links, hunting can pick cells that are linked but not reached.
- Prims.SimplifiedPrims: the spanning tree is promised only for a grid that starts with no links, for the same reason. The same holds for Prims.TruePrims and Prims.GrowingTree.
- Prims.Select: `mixed_selection`'s coin (src/algorithms.rs:470) is a free choice between the back and a random entry.
- The PNG renderer (src/rendering.rs), the benchmarks and the examples are outside the core and not modelled.
- `get_mut` is not a separate operation. Each update that goes through it (`link`, `unlink`, `update_weight`, `mark_in_solution`) is modelled on the grid directly.
- `PolarCell` lives in a file that is not part of this model. Its fields are taken from their uses in src/data/grid.rs:257-289.
- `cells()` returns the `cells` field directly and needs no member.
- Hashing of positions and cells (`Hash` impls) is not modelled; sets and maps are mathematical.
