# Maze generator model

This project models the maze model of `mazegen.py`, the one part of the
Mazes repository that holds real logic. `Cell` is a grid cell with four wall
flags (EAST, SOUTH, WEST, NORTH) and a visited mark. `Maze` is a
`height × width` grid of such cells, indexed `cells[row][col]`. Its
operations are:

- `initialize`: rebuild the grid with every wall closed;
- `removeMarks`: clear every visited mark;
- `getNeighbours`: list the in-bounds orthogonal neighbours, west, east,
  north, south;
- `randomizeBacktracker`: the iterative randomized depth-first ("recursive
  backtracker") carver.

The model is imperative where the source is. `Cell` and `Maze` are classes
whose methods update their fields in place (`MazeGen`). Their behaviour is
stated on a value view of the grid, a map from each position to its walls
and visited mark (`Views`). Three pure modules hold the specification:

- `Grid`: positions, directions and grid connectivity;
- `Carving`: the walls a run opens, and the tree of carving steps;
- `Views`: how a run relates the grid after it to the grid before it.

Each run of the backtracker is described by ghost results:

- `parent[x]`: the cell that `x` was carved from;
- `rank[x]`: the order in which `x` was reached.

Every run satisfies the following, whatever the random source returns:

- every cell's walls are its old walls minus the entrance, the exit and the
  wall pairs between tree neighbours;
- a cell is marked exactly when it was marked before or lies in the tree;
- the callback fires once per tree edge;
- every tree edge is open on both of its sides;
- the loop terminates.

On a grid with no marks, the tree covers every cell and the callback fires
`width * height - 1` times.

Python semantics that are modelled explicitly:

- list indexing with negative indices (`ListIndex`, `Resolve`): `start`,
  `finish`, `entrance` and `exit` may be negative and wrap around;
- the `IndexError` that any other out-of-range value raises. The result is
  `Outcome.IndexError`, and the grid keeps the changes Python made before
  the exception: on a bad `finish` or `exit`, the start cell is already
  opened and marked.

`random.choice` is a parameter `choose(k, n)`: the index drawn among `n`
candidates on the `k`-th draw. The only requirement is `choose(k, n) < n`.
The callback is counted in `Outcome.Finished(callbacks)`.

Facts about `mazegen.py` that the model follows:

- Negative indices wrap, and any other out-of-range index raises IndexError
  (mazegen.py:54, 62; `ListIndex`, `Resolve`).
- `Cell` has only `walls`, `visited`, `row` and `col`, so `removeMarks`
  clears only `visited` (mazegen.py:18-22, 34-37).
- The entrance and exit openings are one-sided (mazegen.py:55, 63).
  `Carving.OpenedSymmetric` therefore excludes them from the wall-pair
  symmetry.
- `Carve` requires adjacency, because the side selection of
  mazegen.py:75-88 only ever runs on a cell and one of its neighbours.
- A negative width or height gives an empty grid, as `range` of a negative
  count is empty (`Dim`).

## Model

| member | source | states |
|---|---|---|
| MazeGen.Cell.constructor | mazegen.py:18-22 | a new cell has the given row and column, all four walls closed and no visited mark |
| Grid.Opposite | mazegen.py:13-16 | EAST/WEST and SOUTH/NORTH face each other: stepping in a direction and then in its opposite returns to the start |
| Grid.Toward | mazegen.py:75-88 | the side the carving step picks (equal columns: north or south; otherwise west or east) is a direction, and between adjacent cells it is the one leading to the other cell |
| Grid.StepToward | mazegen.py:75-88 | between adjacent cells, `Toward` is the only side facing the other cell, and the two cells' sides are opposite, e.g. current NORTH with neighbour SOUTH |
| Grid.StepAdjacent | mazegen.py:13-16 | every direction leads to an adjacent position, and `Toward` recovers that direction |
| Grid.RowPositions | mazegen.py:32 | one row of the grid holds exactly `width` positions |
| Grid.PositionsCount | mazegen.py:32 | a `width × height` grid has `width * height` cells |
| Grid.WalkRow | mazegen.py:39-44 | a set closed under west/east neighbours reaches every column of a row from any of its cells |
| Grid.WalkColumn | mazegen.py:45-48 | a set closed under north/south neighbours reaches every row of a column from any of its cells |
| Grid.ClosedSetCoversGrid | mazegen.py:39-49 | the grid is connected: a set that holds one cell and all in-bounds neighbours of each of its cells holds every cell |
| Carving.Opened | mazegen.py:55-88 | after a run, a wall is open when it was open before, is an opening or borders a tree edge; walls are only ever opened |
| Carving.CarvedSymmetric | mazegen.py:75-88 | a tree edge is seen from both of its cells |
| Carving.OpenedSymmetric | mazegen.py:75-88 | facing sides of two neighbours that agreed before a run, and are not openings, still agree after it |
| Carving.CarvedExtend | mazegen.py:73-88 | a new tree edge from `cur` to `sel` carves exactly the two facing sides of that pair |
| Carving.OpenedExtend | mazegen.py:73-88 | one more carving step opens exactly the facing sides of `cur` and `sel` and changes no other cell's walls |
| Carving.TreeSize | mazegen.py:70-93 | a tree built from the root has one more cell than edges |
| Carving.PathToRoot | mazegen.py:65-93 | every tree cell has a path of adjacent parent links to the start cell, along which ranks strictly decrease, so no cell repeats |
| Carving.TreeEdgesOpen | mazegen.py:75-88 | the walls on both sides of a tree edge are open |
| Carving.PendingStart | mazegen.py:57 | the stack holding only the start cell satisfies the stack bookkeeping |
| Carving.PendingPush | mazegen.py:71-90 | pushing a cell that joins the tree keeps the stack bookkeeping |
| Carving.PendingPop | mazegen.py:66-70 | popping a cell whose neighbours are all marked keeps the stack bookkeeping |
| Views.ClearMarks | mazegen.py:34-37 | clearing the marks keeps every position and every wall and leaves no cell marked |
| Views.ClearMarksIdempotent | mazegen.py:34-37 | clearing the marks twice gives the same grid as clearing them once |
| Views.ClearedStep | mazegen.py:36-37 | clearing one more cell's mark extends the cleared prefix of the grid |
| Views.ClearedAll | mazegen.py:35-37 | a grid cleared up to the last row is the grid with all marks cleared |
| Views.CarveUpdates | mazegen.py:73-88 | marking the neighbour and opening the two facing sides, in the source's order, is one carving step |
| Views.StartCell | mazegen.py:55-63 | before any carving, a cell's walls lose exactly its entrance or exit opening |
| Views.TreeStart | mazegen.py:56-57 | the start cell alone forms a tree |
| Views.RunStart | mazegen.py:54-63 | opening the entrance, marking the start cell and opening the exit starts a run whose tree is the start cell |
| Views.ExtendTree | mazegen.py:70-90 | hanging an unmarked neighbour under a tree cell keeps a tree, and the new cell gets the next rank |
| Views.ExtendCells | mazegen.py:73-88 | carving into a cell outside the tree keeps every cell's walls and marks as the run description says |
| Views.RunExtend | mazegen.py:70-90 | one carving step from a tree cell into an unmarked neighbour grows the tree by that edge and keeps the run description |
| Views.RunTreeOpen | mazegen.py:75-88 | at the end of a run both sides of every tree edge are open |
| Views.PathOpen | mazegen.py:65-93 | the open walls connect every reached cell to the start: along the parent path from the cell to the start, the walls between consecutive cells are open on both sides |
| Views.TreeCovers | mazegen.py:65-93 | on a grid with no marks, a tree whose cells have all of their neighbours in the tree holds every cell |
| Views.RunSpans | mazegen.py:65-93 | on a grid with no marks, a finished run has marked every cell, and its tree has `width * height - 1` edges |
| Views.PendingGrow | mazegen.py:71-90 | pushing a newly carved cell keeps the stack bookkeeping and removes that cell from the cells still reachable, the first component of the loop's measure |
| MazeGen.ListIndex | mazegen.py:54-63 | Python list indexing: an index in `-n .. n-1` yields the element (negative indices count from the end); any other index raises IndexError |
| MazeGen.Unvisited | mazegen.py:68 | keeps exactly the unvisited cells of the list |
| MazeGen.UnvisitedSorted | mazegen.py:68 | the filter keeps the order of the list: cells in strictly increasing west, east, north, south order stay in that order |
| MazeGen.Maze.At | mazegen.py:42-48 | `cells[r][c]` is the grid cell at row r, column c |
| MazeGen.Maze.Resolve | mazegen.py:54-62 | `cells[xy[1]][xy[0]]` names a cell exactly when both indices are in range for Python, with the column first in the pair |
| MazeGen.Maze.FinishOr | mazegen.py:59-60 | a missing finish defaults to `(width - 1, height - 1)`, the south-east corner |
| MazeGen.Maze.constructor | mazegen.py:26-29 | a new maze has the given size and a well-formed grid of new cells with every wall closed and no mark |
| MazeGen.Maze.Initialize | mazegen.py:31-32 | the grid is rebuilt as `height` rows of `width` new cells, each at its own row and column, every wall closed, no mark |
| MazeGen.Maze.RemoveMarks | mazegen.py:34-37 | every mark is cleared and every wall is kept |
| MazeGen.Maze.Neighbours | mazegen.py:39-49 | at most four cells, each in bounds and adjacent to the given cell; every in-bounds orthogonal neighbour appears; west, east, north, south order |
| MazeGen.Maze.CandidatesInOrder | mazegen.py:39-49 | the candidates `random.choice` draws from (mazegen.py:67-68) are the unvisited neighbours in strict west, east, north, south order, so each index names one fixed neighbour |
| MazeGen.Maze.OpenWall | mazegen.py:55-63 | opens one side of one cell and changes nothing else |
| MazeGen.Maze.Mark | mazegen.py:56-73 | sets one cell's mark and changes nothing else |
| MazeGen.Maze.Carve | mazegen.py:73-88 | marks the neighbour and opens the two facing sides of the pair, nothing else |
| MazeGen.Maze.Advance | mazegen.py:73-88 | carving into an unvisited neighbour keeps the run description with the new edge; that cell was unmarked before the run and is new to the tree |
| MazeGen.Maze.Exhausted | mazegen.py:67-70 | a cell without unvisited neighbours has every in-bounds neighbour marked, before the run or by it |
| MazeGen.Maze.Picked | mazegen.py:67-72 | a cell picked among the unvisited neighbours is an unvisited grid cell next to the current one |
| MazeGen.Maze.Choice | mazegen.py:72 | `random.choice` returns the candidate that `choose` draws for this turn (`Drawn`), an unvisited grid cell next to the current cell |
| MazeGen.Maze.Retreat | mazegen.py:66-70 | popping a dead-end cell keeps the stack bookkeeping |
| MazeGen.Maze.Grow | mazegen.py:70-93 | a carving turn keeps the run description and the stack bookkeeping and reduces the set of cells still reachable; exactly, the chosen cell is pushed, joins the tree under the top cell at the next rank, the wall between the two is opened on both sides and the callback count rises by one |
| MazeGen.Maze.Visit | mazegen.py:66-93 | one loop turn keeps the run description and the stack bookkeeping and decreases the termination measure; exactly, a dead end is popped with grid, tree and count unchanged, and otherwise the drawn candidate is carved into from the top cell, pushed and added to the tree |
| MazeGen.Maze.Search | mazegen.py:65-93 | the loop ends; when it does, every cell it reached has all of its neighbours marked, and the callback count equals the tree's edge count |
| MazeGen.Maze.Enter | mazegen.py:54-56 | opens the entrance side of the start cell and marks it, nothing else |
| MazeGen.Maze.Explore | mazegen.py:62-93 | after the start cell is opened: opens the exit, runs the loop, and the grid is the run description of a tree rooted at the start; tree edges are open on both sides; on a grid with no marks every cell is reached and marked, with `width * height - 1` callbacks |
| MazeGen.Maze.RandomizeBacktracker | mazegen.py:52-93 | IndexError exactly when the start, entrance, finish or exit index is out of range, with the partial changes Python leaves behind; otherwise the grid is the run description of a tree rooted at the start (walls only opened, openings one-sided, tree edges open on both sides, marks exactly the tree plus the old marks), one callback per edge, and on a grid with no marks a spanning tree with `width * height - 1` callbacks |

## Left out

- `MazeWidget`, `update`, `generate` and the `__main__` block (mazegen.py:98-167): Qt painting and UI wiring. mazesqt.py, mazesurs.py and mazesvp.py are front-ends and are not part of this model.
- Threads started by the front-ends: they only keep the UI responsive.
- Loop carving (`loops=`), the completion callback (`finished=`), the `wallToucher` solver and `wallsTraversed` marks: the front-ends call them, but `mazegen.py` does not implement them.
- The `random` module: every draw is the parameter `choose`. The contracts hold for any choice within range, so uniformity is not modelled.
- The callback itself: it is called with no arguments and its result is ignored, so the model counts its invocations. Any effects the callback has are not modelled. `callback=None` differs only in that nothing is called; the count is the same.
- MazeGen.Maze.Visit: the source pops the top cell and pushes it back when the cell has unvisited neighbours. The model leaves that cell on the stack and pushes the chosen neighbour above it, which yields the same stack.
- The stack holds the positions of cells rather than references to them. In a well-formed grid each position names exactly one cell, so both describe the same cells.
- Arguments of the wrong type: non-integer indices or sizes raise Python's `TypeError`, and every size and index here is an integer. A `start` or `finish` that is not a sequence of two integers is outside the model; a shorter tuple raises `IndexError` at `start[1]` or `finish[1]` (mazegen.py:54 and 62), and extra elements are ignored.
- MazeGen.Maze.Initialize: `width` and `height` are constant fields of the model. Python's `initialize` reads the current attributes, and a front-end resizes a maze by assigning them and then calling `initialize()` (mazesqt.py:98-100). That resize by assignment is not modelled; building a new `Maze` of the new size gives the same grid.
- Wall lists whose length is not four: every cell is built with four wall flags, and nothing in `mazegen.py` changes their length.
- MazeGen.Maze.RandomizeBacktracker: the Python defaults `start=(0,0)`, `entrance=Cell.WEST` and `exit=Cell.EAST` (mazegen.py:52) are not built in. Callers pass those values explicitly, which behaves the same. Only `finish`'s default, computed from the grid size, is modelled (`FinishOr`).
