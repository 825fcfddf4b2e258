# Maze search with stack and queue frontiers

This project models the maze solver in `src/Main.java` of the DFS/BFS maze
program. A maze is read from text lines: `A` is the start, `B` the goal, a
space an open cell, and any other character a wall. A search node holds a
cell and a link to its parent node. The frontier is a list of nodes. The
stack frontier hands back the newest node and the queue frontier the oldest.
`solve` runs depth-first search with the stack frontier and an explored set.
When it takes the goal out of the frontier, it follows the parent links back
to the start and reverses the collected cells into a start-to-goal path.
`print` picks one symbol per cell.

The Dafny modules follow the parts of that file:

- `Wrappers` has `Option` and `Result`.
- `Grid` has cells, the grid, the four-way neighbour candidates, walks and
  solutions, and the counting facts used to bound the search.
- `Frontiers` has the `Node` datatype and the `Frontier` class. One class
  with a `Stack` or `Queue` policy stands for `StackFrontier` and its
  subclass `QueueFrontier`. The two differ only in `remove`.
- `Loader` has the decoding of the constructor's text lines into a grid.
- `Search` has the `Maze` class with `neighbors`, `solve`, its path
  reconstruction and `containsInSolution`.
- `Render` has the per-cell symbol choice of `print`.
- `Examples` has small mazes worked through the model.

`Solve` is proved sound and complete:

- If it succeeds, the recorded path is a walk of open cells. The walk starts
  one step from the start, leaves the start out and ends at the goal.
- If it fails, no such walk exists. The proof shows that the explored cells
  form a set closed under open neighbours, with the start inside and the goal
  outside.
- Each cell enters the frontier at most once, so the number of nodes taken
  out is bounded by height × width. The loop's termination measure is the
  number of unexplored cells.

Two behaviours of the code are worth stating up front, because the model
follows them:

- The start/goal check counts the lines that contain an 'A' or a 'B', not
  the cells. A line like "AA B" is therefore accepted, and the last 'A'
  becomes the start.
- `solve` always uses `StackFrontier`, so it searches depth-first.
  `QueueFrontier` exists, but nothing in the program uses it.

The frontier also carries two ghost fields that exist only for the proofs
and have no counterpart in the source:

- `pushed` lists the cell of every node ever added.
- `taken` counts the nodes removed.

`Solve` also returns its frontier as a ghost result. Its contract states
these facts about that frontier's records:

- On failure:
  - the frontier is empty;
  - every recorded cell was taken out;
  - the recorded cells hold the start but not the goal;
  - the recorded cells are closed under open neighbours, which is the
    certificate that no solution exists.
- On success, the goal is among the recorded cells.
- In both cases:
  - the recorded cells have no repeats and lie in the grid;
  - the number of nodes removed is at most the number added, and that is at
    most height × width.

## Model

| member | source | states |
|---|---|---|
| Frontiers.Frontier.constructor | src/Main.java:39 | a new frontier of the given policy holds no nodes |
| Frontiers.Frontier.Add | src/Main.java:41-43 | the node is appended at the end; earlier nodes stay as they were and nothing is deduplicated; the ghost record of added cells grows by the node's cell |
| Frontiers.Frontier.ContainsState | src/Main.java:45-52 | true exactly when some node in the frontier has the given cell as its state |
| Frontiers.Frontier.Empty | src/Main.java:54-56 | true exactly when the frontier holds no nodes |
| Frontiers.Frontier.Remove | src/Main.java:58-64 | an empty frontier gives the empty-frontier error and is left unchanged; otherwise the policy's next node is returned, only that node is removed and the ghost removal count goes up by one |
| Frontiers.StackLaw | src/Main.java:58-64 | under the stack policy the node added last is the one removed, and removing it restores the earlier frontier (LIFO) |
| Frontiers.QueueLaw | src/Main.java:69-75 | under the queue policy the earliest node is removed first, and a node added later stays behind the others (FIFO) |
| Frontiers.RemovalIsPermutation | src/Main.java:58-75 | for either policy, removal takes out exactly one node: the remainder plus the removed node is the old frontier as a multiset |
| Frontiers.HasStateConcat | src/Main.java:45-52 | a state is held by a concatenation of frontiers exactly when one of the parts holds it |
| Grid.CandidatesAreAdjacent | src/Main.java:150-155 | the four candidate positions are exactly the cells one step up, down, left or right |
| Grid.OpenNeighborsExact | src/Main.java:157-163 | the neighbours are at most four; each one is inside the grid, not a wall and adjacent; every open adjacent cell is among them |
| Grid.OpenNeighborsOrder | src/Main.java:150-163 | the neighbours of (r, c) are (r-1, c), (r+1, c), (r, c-1), (r, c+1) in that order, each present exactly when it is open |
| Grid.KeepOpenMembers | src/Main.java:157-163 | filtering keeps exactly the open cells of the candidate list and never lengthens it |
| Search.Maze.Neighbors | src/Main.java:145-165 | the loop returns exactly the open candidates in order, as the neighbour filter defines them |
| Search.Maze.ContainsInSolution | src/Main.java:136-143 | true exactly when the cell (row, col) is on the recorded path |
| Search.Maze.Backtrack | src/Main.java:179-188 | walking up the parent links and reversing gives the chain's cells from the first step after the start down to the node |
| Search.ReversedBackTrace | src/Main.java:181-188 | reversing the cells met on the walk up the parent links gives them in start-to-node order |
| Search.ChainIsWalk | src/Main.java:194-198 | a node built by the search is reached by a walk of adjacent open cells from the start that never revisits the start |
| Search.GoalChainIsSolution | src/Main.java:179-189 | a goal node's path is a solution that leaves out the start, or is empty when start and goal coincide |
| Search.Maze.PushNeighbors | src/Main.java:194-198 | each neighbour not in the frontier and not explored is appended, in order, as a child of the expanded node; the search invariant is kept |
| Search.Maze.Solve | src/Main.java:167-200 | success records a solution path from next to the start to the goal; failure means no solution exists and the old path is kept. The returned ghost frontier's record of added cells has no repeats, lies in the grid and has at most height × width entries, and at most that many nodes were removed. On failure the frontier is empty, every recorded cell was removed, and the recorded cells hold the start, not the goal, and are closed under open neighbours. On success the goal is recorded |
| Search.Exhausted | src/Main.java:173-175 | when the frontier empties, the explored set is closed, so no walk from the start reaches the goal |
| Search.EnqueuedBound | src/Main.java:194-198 | distinct in-grid cells number at most height × width |
| Grid.ClosedSetBlocksGoal | src/Main.java:192-198 | a set of cells closed under open neighbours, holding the start but not the goal, admits no solution |
| Search.Maze.constructor | src/Main.java:85-95 | a maze holds the given valid grid and no recorded path |
| Search.Maze.Load | src/Main.java:85-114 | building a maze from text fails exactly when decoding fails, with the same error; otherwise the maze holds the decoded grid and no path |
| Loader.LinesContaining | src/Main.java:88-89 | counts the lines that contain the character anywhere, never more than the number of lines |
| Loader.LastInLine | src/Main.java:99-106 | the last column within the width holding the character, or none when no such column has it |
| Loader.FindLast | src/Main.java:97-113 | the last cell in row-major order holding the character, as the loop's final assignment leaves it, or none when no cell within the width holds it |
| Loader.Decode | src/Main.java:85-114 | the text is refused unless exactly one line contains 'A' and one contains 'B'; a short line is refused; otherwise the grid is as tall as the text and as wide as its first line, a wall exactly where the character is not 'A', 'B' or a space, with start and goal at the last 'A' and 'B' |
| Render.CellSymbol | src/Main.java:120-130 | the symbol is one of the wall block, 'A', 'B', '*' and blank: the wall block exactly for a wall, 'A' for the open start, 'B' for the open goal other than the start, '*' for any other open cell on the recorded path, otherwise blank |
| Render.RenderDecoded | src/Main.java:120-130 | before a search, a decoded maze prints back as its text, with other characters as wall blocks and overridden 'A'/'B' cells blank |
| Render.RenderSolution | src/Main.java:120-130 | with a found path, a cell is starred exactly when it is on the path and is not the goal; no path cell is drawn as a wall |
| Examples.CorridorDecodes | src/Main.java:85-114 | "A B" decodes to a 1 × 3 open corridor from (0,0) to (0,2) |
| Examples.BlockedDecodes | src/Main.java:85-114 | "A#B" decodes to the same corridor with a wall in the middle |
| Examples.BlockedUnsolvable | src/Main.java:173-175 | the blocked corridor has no solution |
| Examples.CorridorSolvable | src/Main.java:179-188 | the corridor's path (0,1), (0,2) is a solution |
| Examples.TwoStartLinesRejected | src/Main.java:88-91 | two lines holding 'A' are refused |
| Examples.ShortLineRejected | src/Main.java:97-100 | a line shorter than the first is refused |
| Examples.StartPastWidthRejected | src/Main.java:97-113 | an 'A' past the first line's width is never read, and the model refuses the text with `StartUnread` (the source's behaviour here is described under Left out) |
| Examples.SolveBoth | src/Main.java:167-200 | the search solves the corridor and fails on the blocked one |

## Left out

- Reading the maze file and the command-line handling of `main` are file and console I/O. The decoder takes the file's lines.
- Writing the symbols to the console in `print` is console I/O. Only the per-cell symbol choice is modelled.
- The `action` field of a node is always null and never read, so `Node` has only a state and a parent.
- The explored set keys cells by their `Arrays.toString` text. It is modelled as a set of positions, which identifies the same cells.
- Throwing exceptions becomes an explicit result: `LoadError` for a refused text, `EmptyFrontier` for removal from an empty frontier, and the `NoSolutionFound` outcome for a failed search.
- Loader.Decode: a line shorter than the first makes the source throw while reading a character. The model refuses it with `ShortLine` before reading, whatever the line's position.
- Loader.Decode: when an 'A' or a 'B' lies only past the first line's width, the source never reads it and builds a maze whose start or goal is null. The model refuses such a text instead, with `StartUnread` or `GoalUnread`. What the source then does depends on which is missing:
  - only the start is missing: the first neighbour lookup dereferences the null start and throws (src/Main.java:146);
  - only the goal is missing: no cell ever equals the null goal, so the search explores what it can reach and fails with "No solution found." (src/Main.java:174);
  - both are missing: `Arrays.equals` treats two nulls as equal, so the goal test at src/Main.java:179 holds for the root node, and the search succeeds at once with an empty path. `print` covers only the columns within the first line's width (src/Main.java:119). It draws those cells as open or wall, and never reaches the unread 'A' and 'B'.
- Examples.StartPastWidthRejected: the refusal is the model's own. For `["B ", "  A"]` the source builds a maze without a start and then throws in the search (src/Main.java:146).
- Loader.Decode: Dafny strings are sequences of Unicode scalar values, but Java's `length` and `charAt` (src/Main.java:94,100) count UTF-16 code units. A character outside the Basic Multilingual Plane is one cell here and two wall cells in the source. Widths, positions and the short-line decision can differ for such text.
- Search.Maze.Solve: the source always uses the stack frontier, so only depth-first search is modelled. The queue frontier's removal is modelled and its FIFO law proved, but no breadth-first `Solve` exists, and path minimality is not stated.
- Search.Maze.Solve: the contract does not say which solution depth-first order finds. It states that the path is a solution, not which one. Each step's frontier is still fixed exactly by `Remove` and `PushNeighbors`.
- Search.Maze.Solve: the contract cannot name the local frontier the search runs on. It describes the ghost frontier it returns only through that frontier's records. Any frontier whose records met the same clauses would satisfy them too, though on failure those clauses alone already rule out a solution.
- Search.Maze.Backtrack: `Collections.reverse` reverses the list in place. The model collects the cells in a sequence and applies the function `Reversed`.
- Node parents are immutable values, not shared references. No code in the source mutates a node after it is built, so nothing observable changes.
