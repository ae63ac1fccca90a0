# Grid A* engine — a verified Dafny model

This project models the grid A* path-finding engine `AStar`. The engine has four parts:

- **Construction.** It builds a dense `width × height` grid of cells. Each cell gets a Manhattan heuristic to the goal slot, the start slot gets key 0, and every slot hit by an entity is nulled (blocked).
- **Relaxation** (`updateCostIfNeeded`). A neighbour `t` of the current cell gets key `h(t) + cost` and the current cell as parent. This happens when `t` is not open, or when the new key is strictly smaller. If `t` was not open, it also enters the frontier.
- **Search** (`process`). It seeds the frontier with the start cell. It then polls a cell, marks it closed, and stops when that cell is the goal's. Otherwise it relaxes the cell's in-grid neighbours: cost 10 for a straight step, 14 for a diagonal one.
- **Path reconstruction** (`getCalculatedPath`). When the goal is closed, it follows parent links back from the goal cell. It lists every parent and marks each visited cell as part of the solution.

Files:

- `wrappers.dfy` — `Option`.
- `grid.dfy` (module `GridModel`) — the value-level vocabulary:
  - coordinates, the `Cell` record and the two step costs;
  - the neighbour list one expansion relaxes (`Candidate`, `Examined`), with the bounds tests of AStar.java in their order there;
  - counting the grid's coordinates.
- `paths.dfy` (module `Paths`) — parent chains over a map from child to parent, ranked by closing order, plus walks of relaxation steps.
- `astar.dfy` (module `AStarSearch`) — the engine as a class.
  - `grid: array2<Option<Cell>>` (a `None` slot is a null, blocked slot), `closedCells: array2<bool>`, the frontier `openCells: set<Coord>`, and the four start/goal fields.
  - Ghost state records:
    - `closedAt`: the closing order;
    - `steps`: the number of cells closed;
    - `root`: the seed;
    - `history`: every insertion into the frontier.
  - The invariant `Valid()` says:
    - cells sit in their own slot;
    - the closed grid matches `closedAt`;
    - every parent is a closed neighbour at one of the seven relaxation offsets, closed before its child, and the child's key is `h(child) + key(parent) + step`;
    - the root is the only closed cell without a parent;
    - open cells are present and not closed;
    - no coordinate was ever inserted twice.
  - Two per-slot predicates say how the grid may change:
    - `Evolved`: across one expansion from a closed cell, only relaxed slots change, closed cells keep their cell, every cell keeps its solution flag, an open cell changes only to get a strictly smaller key, exactly the relaxed present unclosed cells join the frontier, every relaxed present unclosed cell ends with a key of at most its heuristic plus the closed cell's key plus the step, and a slot that changed or joined the frontier has the closed cell as parent and exactly that key;
    - `Settled`: across any number of turns, closed cells stay closed with the same cell, and open cells stay present with keys no larger until they are closed.

The behaviour of the Java `AStar` class is kept, including its quirks.

- **Swapped fields.** The constructor stores start and goal swapped: `startCell(startY, startX)`, `endCell(endY, endX)`. Its body reads its parameters, which shadow those fields. So the heuristic is measured to slot `(endY, endX)`, which equals the stored `(this.endX, this.endY)`. Key 0 goes to slot `(startY, startX)`, which equals `(this.startX, this.startY)`. These are the same slots `process` seeds and tests against, as `AStar.constructor` states.
- **Transposed blocking.** An entity at `(x, y)` blanks slot `grid[y][x]`.
- **Accumulating heuristic.** The new key is `h(t) + finalCost(current) + step`, and `finalCost(current)` already contains a heuristic.
- **Missing diagonal.** The last neighbour test is `y + 1 > height`, which never holds. So the neighbour at offset (+1, +1) is never relaxed. `GridModel.Relaxes` therefore lists seven offsets, not eight.

Where the code differs from textbook A*:

- The code relaxes three diagonals, not four.
- The returned path runs from the goal's parent back to the parentless root and does not contain the goal itself. The root is always the seed slot (startX, startY). So when the goal is closed, the path contains the seed exactly when the goal is not the seed; when the goal is the seed, the path is empty. When the goal is not closed, the path is empty.
- The polled cell is not guaranteed to have the minimal key, because keys are changed in place inside a `PriorityQueue`. Optimality of the returned path is therefore not claimed.

## Model

| member | source | states |
|---|---|---|
| GridModel.Candidate | astar/AStar.java:109-146 | the i-th guarded neighbour test of an expansion: when its bounds test passes, the neighbour is in the grid, one of the seven relaxation offsets away, with step cost 10 (straight) or 14 (diagonal); (+1, +1) is never offered |
| GridModel.ExaminedFrom | astar/AStar.java:109-147 | the neighbours whose tests pass from the i-th call on are all in the grid and at relaxation offsets with their step cost, at most 8 - i of them |
| GridModel.Examined | astar/AStar.java:109-147 | one expansion relaxes at most eight neighbours, each in bounds, at a relaxation offset, with cost 10 or 14 by direction |
| GridModel.CandidateListed | astar/AStar.java:109-147 | a neighbour whose test passes is among those relaxed from any earlier call on |
| GridModel.ExaminedComplete | astar/AStar.java:109-147 | every in-grid cell at one of the seven offsets is relaxed with its step cost, so the relaxed neighbours are exactly the in-grid seven-neighbourhood |
| GridModel.AllCoordsCard | astar/AStar.java:31 | a width × height grid has exactly width × height coordinates |
| Paths.Chain | astar/AStar.java:236-240 | following parent links from a cell ranked by closing order yields a finite list of cells, each closed before the start cell, no longer than its rank |
| Paths.ChainLinks | astar/AStar.java:236-240 | the chain is empty exactly when the cell has no parent; otherwise it starts with the parent, each entry is the parent of the one before, and the last entry has no parent |
| Paths.ChainDescends | astar/AStar.java:236-240 | the closing ranks strictly decrease along the chain, so no cell repeats and the start cell is not in it |
| Paths.NoRepeatsPairwise | astar/AStar.java:85-86 | the recursive no-repeat predicate on the frontier insertions is equivalent to pairwise distinctness |
| Paths.WalkStaysInside | astar/AStar.java:94-99 | a walk of relaxation steps that starts in a set closed under those steps never leaves it |
| AStarSearch.AStar.constructor | astar/AStar.java:30-57 | start and goal fields stored swapped; every slot holds the cell with its own coordinates, the Manhattan distance to the goal slot (this.endX, this.endY) as heuristic, no parent and solution false, with key 0 at the seed slot (this.startX, this.startY); an entity at (ex, ey) blanks slot (ey, ex) and nothing else; nothing is closed or open |
| AStarSearch.AStar.FillCells | astar/AStar.java:39-45 | after the double loop every slot holds a fresh cell with its own coordinates and the heuristic abs(i - endY) + abs(j - endX) of the constructor's parameters |
| AStarSearch.AStar.BlockEntities | astar/AStar.java:54-56 | after the loop over the entities, exactly the slots (ey, ex) of the entities are blank and the rest is unchanged |
| AStarSearch.AStar.AddBlockOnCell | astar/AStar.java:59-61 | slot grid[y][x] becomes blank and no other slot changes |
| AStarSearch.AStar.StartCell | astar/AStar.java:63-66 | the start fields take the given values |
| AStarSearch.AStar.EndCell | astar/AStar.java:68-71 | the goal fields take the given values |
| AStarSearch.AStar.UpdateCostIfNeeded | astar/AStar.java:73-88 | a null or closed t changes nothing; otherwise t gets key h(t) + cost and parent current exactly when it was not open or the new key is strictly smaller; it enters the frontier exactly when it was not open; every other slot is unchanged, and an open cell's key never increases; the invariant is kept |
| AStarSearch.AStar.Reprice | astar/AStar.java:81-87 | the update branch: the unclosed cell gets key h + cost and parent current, no other slot changes, the frontier grows by exactly that cell, its coordinates are appended to the insertions only when it was not open, and the invariant is kept when the cost is the current key plus the step |
| AStarSearch.AStar.RelaxKeepsValid | astar/AStar.java:81-87 | giving an unclosed cell a closed neighbour as parent, with key h + parent key + step, keeps the invariant |
| AStarSearch.AStar.Poll | astar/AStar.java:95 | an empty frontier yields nothing; otherwise some open cell is removed and returned |
| AStarSearch.AStar.MarkClosed | astar/AStar.java:101 | the polled cell becomes closed, it was not closed before, no other closed flag changes, and it is recorded as closed at the current step |
| AStarSearch.AStar.CloseNext | astar/AStar.java:95-101 | an empty frontier changes nothing; otherwise exactly one open cell leaves the frontier and is closed, and the closed set grows by that cell |
| AStarSearch.AStar.RelaxNeighbours | astar/AStar.java:107-147 | after relaxing the listed neighbours each of them is blocked or has entered the frontier; slot by slot, only listed slots change, every slot keeps its coordinates, heuristic, solution flag and blankness, closed cells (the current one among them) keep their cell, an open cell changes only to get a strictly smaller key (a tie leaves it as it was), and a cell is open afterwards exactly when it was open before or it is a listed, present, unclosed cell; every listed, present, unclosed cell ends with key at most h + key(current) + step, and every slot that changed or joined the frontier has parent current and key exactly h + key(current) + step; the invariant is kept |
| AStarSearch.TieKeepsOpenCell | astar/AStar.java:81 | under Evolved, an open cell whose key is at most the offered h + key(current) + step, a tie included, keeps its key and parent |
| AStarSearch.AStar.RelaxOne | astar/AStar.java:110-111 | one relaxation from a closed cell changes only the neighbour's slot: a blocked or closed neighbour and the frontier stay as they were; otherwise the neighbour gets key h + key(current) + step and parent current exactly when it was not open or the new key is strictly smaller, and the frontier grows by exactly that neighbour; an open key never grows; the invariant is kept |
| AStarSearch.ExpandedAfterRelax | astar/AStar.java:107-147 | after an expansion, every closed cell has had each of its examined neighbours blocked or put in the frontier |
| AStarSearch.AStar.Expand | astar/AStar.java:107-147 | the expansion of the just closed cell keeps the search invariant; slot by slot, the examined neighbours of that cell evolve as for RelaxNeighbours (only they change; solution flags are kept; an open one changes only to get a strictly smaller key; each present unclosed one ends with key at most h + key(current) + step; a changed or newly opened one has parent current and exactly that key); measured from before the cell was polled, closed cells keep their cell and every formerly open cell is still present with a key no larger, and open or closed |
| AStarSearch.AStar.Step | astar/AStar.java:94-148 | one turn: an empty frontier stops with no cell closed and the grid unchanged; otherwise the polled cell is an open cell, the one in its slot, and exactly it is newly closed, and the turn stops exactly when it is the goal's, with the grid unchanged, the frontier minus the polled cell, and no frontier insertion; a turn that goes on changes only the examined neighbours of the polled cell and keeps every solution flag, an open one changes only to get a strictly smaller key, each present unclosed one ends with key at most h + key(polled) + step, a changed or newly opened one has parent the polled cell and exactly that key, and a cell is open afterwards exactly when it was open before (and not the polled one) or it is an examined, present, unclosed cell; in every turn closed cells keep their cell and open keys do not grow |
| AStarSearch.AStar.Advance | astar/AStar.java:102-147 | after the poll: the turn stops exactly when the polled cell is in slot (endX, endY), and then nothing changes; otherwise the polled cell is expanded as Expand states, and the search invariant holds |
| AStarSearch.AStar.SettledStep | astar/AStar.java:94-148 | every clause of Step for one turn, and in addition, measured from any earlier state of the search, the slots still have only settled: each keeps its shape and solution flag, a cell closed then is still closed with the same cell, a cell open then is still present with a key no larger and is open or closed |
| AStarSearch.AStar.OpenStart | astar/AStar.java:91 | the frontier becomes exactly the seed slot (startX, startY), the root of the search |
| AStarSearch.AStar.Search | astar/AStar.java:94-148 | the loop terminates after closing at most width × height cells; either the goal is closed, as the last cell closed, or the frontier ran dry and no walk of relaxation steps through present cells leads from the seed to the goal; over the whole loop, measured from its entry, every slot keeps its shape and solution flag, closed cells keep their cell, and open keys do not grow |
| AStarSearch.AStar.SearchFrom | astar/AStar.java:94-148 | the outcome of Search, and every slot keeps its coordinates, heuristic, solution flag and blankness over the whole search |
| AStarSearch.AStar.Process | astar/AStar.java:90-149 | seeded at (startX, startY), which becomes the root: on return either the goal was the last cell closed, or the frontier is empty and the goal is unreachable by relaxation steps; every slot keeps its coordinates, heuristic, solution flag and blankness (the search never marks the solution); at most width × height cells are closed |
| AStarSearch.AStar.ClosedFitGrid | astar/AStar.java:94-101 | no more cells are closed than the grid has slots |
| AStarSearch.AStar.ExhaustedClosesUnderSteps | astar/AStar.java:95-99 | once the frontier is empty, every present cell one relaxation step from a closed cell is closed |
| AStarSearch.AStar.ExhaustedUnreachable | astar/AStar.java:95-99 | once the frontier is empty, no walk through present cells leads from a closed cell to one that is not closed |
| AStarSearch.AStar.ParentsRanked | astar/AStar.java:82-84 | parents of closed cells were closed earlier and are recorded in the grid, so parent chains are finite |
| AStarSearch.AStar.CalculatedPathShape | astar/AStar.java:236-240 | the path from a closed cell is empty exactly when it has no parent; otherwise it starts at its parent, consecutive entries are neighbours at relaxation offsets, all are closed, none repeats, the start cell is not in it, and it ends at the root |
| AStarSearch.AStar.TraceBack | astar/AStar.java:236-240 | the loop lists exactly the parent chain and marks exactly those cells as on the solution |
| AStarSearch.AStar.MarkSolution | astar/AStar.java:232-240 | when the goal is closed, it marks the goal cell and its parent chain and returns that chain |
| AStarSearch.AStar.MarkingKeepsValid | astar/AStar.java:234-239 | setting solution flags keeps the invariant |
| AStarSearch.AStar.GetCalculatedPath | astar/AStar.java:229-247 | an unclosed goal gives the empty path and no change; a closed goal gives its parent chain from the goal's parent to the root, and exactly the goal and the chain are marked as on the solution; the invariant is kept |

## Left out

- Console output is not modelled: `display`, `displayScores`, `displaySolution` and the "No possible path" message.
- The threaded wrapper `astar/AStarThread.java` is not modelled. It runs the search off the main thread and reads the entity positions from global game state.
- Entity positions and path entries are integer coordinate pairs, not libGDX `Vector2` floats. AStar.java casts entity positions to `int` at line 55.
- Java's 32-bit `int` arithmetic on keys is not modelled (Dafny integers are unbounded). Keys only overflow on grids far larger than the engine is used for.
- `Cell.java` is not part of this model. The constructor parameter `initialCost` stands for the key a fresh cell starts with. `Cell.equals` is taken to hold exactly for the cell in the same slot.
- AStarSearch.AStar.Poll: returns some open cell, not one of minimal key. The Java `PriorityQueue` does not reorder cells whose key changes in place. The safety and termination properties do not depend on the choice, and optimality of the path is not claimed.
- AStarSearch.AStar.constructor: requires the start slot and every entity to be in range. The Java code throws an index exception otherwise.
- AStarSearch.AStar.Process: requires a fresh instance, because the engine is modelled as single-use: a second `process` call re-seeds an already searched grid (line 91) and runs the loop again without throwing, and that is not modelled.
- AStarSearch.AStar.Process: requires an in-range, non-blank seed slot (startX, startY) and an in-range goal slot (endX, endY); the goal slot may be blank. The Java code throws otherwise: a null seed cannot be added to the queue, and an out-of-range slot raises an index exception.
- AStarSearch.AStar.AddBlockOnCell: requires 0 <= y < width and 0 <= x < height, so that slot grid[y][x] exists. The Java code throws an index exception otherwise.
- AStarSearch.AStar.GetCalculatedPath: requires the goal slot to be in range. The Java code throws an index exception otherwise.
