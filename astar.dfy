/**
 * The grid A* engine: a dense grid of optional cells, a frontier of open
 * cells, a closed-cell grid, and the search and path-reconstruction
 * operations over them.
 */
module AStarSearch {
  import opened Wrappers
  import opened GridModel
  import opened Paths

  /**
   * Two slots hold the same cell up to the two fields the search writes
   * (finalCost and parent); the solution flag is written only by path
   * reconstruction.
   */
  predicate SameShape(a: Option<Cell>, b: Option<Cell>) {
    a.None? == b.None? &&
    (a.Some? ==> a.value.x == b.value.x && a.value.y == b.value.y && a.value.heuristicCost == b.value.heuristicCost
                 && a.value.solution == b.value.solution)
  }

  /**
   * How one slot may change while neighbours of the closed cell at `from` are
   * relaxed; `touched` says whether the slot was among the relaxed
   * neighbours, and `key` is the key of `from` plus the step to the slot. The
   * slot keeps its shape; an untouched or closed slot keeps its cell; an open
   * cell stays present, its key does not grow, and it changes only to get a
   * strictly smaller key; the slot is open afterwards exactly when it was
   * open before or it was touched, holds a cell and is not closed; a touched,
   * present, unclosed cell ends with a key of at most its heuristic plus
   * `key`; and a slot that changed or became open has parent `from` and key
   * exactly its heuristic plus `key`.
   */
  predicate Evolved(before: Option<Cell>, after: Option<Cell>, touched: bool, closed: bool, wasOpen: bool, isOpen: bool,
                    from: Coord, key: int) {
    && SameShape(before, after)
    && (!touched || closed ==> after == before)
    && (wasOpen ==> before.Some? && after.Some? && after.value.finalCost <= before.value.finalCost)
    && (wasOpen && after != before ==> after.value.finalCost < before.value.finalCost)
    && (isOpen <==> wasOpen || (touched && after.Some? && !closed))
    && (touched && after.Some? && !closed ==> after.value.finalCost <= after.value.heuristicCost + key)
    && (after != before || (!wasOpen && isOpen) ==>
          after.Some? && after.value.parent == Some(from) && after.value.finalCost == after.value.heuristicCost + key)
  }

  /** The key relaxing the slot `to` from the cell `from` offers, before the heuristic of `to` is added. */
  function RelaxedKey(from: Cell, to: Coord): int {
    from.finalCost + StepCost((from.x, from.y), to)
  }

  /** Two rounds of relaxation from the same cell compose into one that touched what either touched. */
  lemma EvolvedThen(before: Option<Cell>, mid: Option<Cell>, after: Option<Cell>, touched1: bool, touched2: bool,
                    closed: bool, open0: bool, open1: bool, open2: bool, from: Coord, key: int)
    requires Evolved(before, mid, touched1, closed, open0, open1, from, key)
    requires Evolved(mid, after, touched2, closed, open1, open2, from, key)
    ensures Evolved(before, after, touched1 || touched2, closed, open0, open2, from, key)
  {
  }

  /**
   * An open cell whose key is already no larger than the one offered, a tie
   * included, is left as it was by the relaxation.
   */
  lemma TieKeepsOpenCell(before: Option<Cell>, after: Option<Cell>, touched: bool, closed: bool, isOpen: bool, from: Coord, key: int)
    requires Evolved(before, after, touched, closed, true, isOpen, from, key)
    requires before.Some? && before.value.finalCost <= before.value.heuristicCost + key
    ensures after == before
  {
  }

  /**
   * How one slot may change across turns of the search: it keeps its shape; a
   * closed cell stays closed and keeps its cell; an open cell stays present,
   * its key does not grow, and it stays open until it is closed.
   */
  predicate Settled(before: Option<Cell>, after: Option<Cell>, wasClosed: bool, isClosed: bool, wasOpen: bool, isOpen: bool) {
    && SameShape(before, after)
    && (wasClosed ==> isClosed && after == before)
    && (wasOpen ==> before.Some? && after.Some? && after.value.finalCost <= before.value.finalCost && (isOpen || isClosed))
  }

  /** Turns of the search compose. */
  lemma SettledThen(before: Option<Cell>, mid: Option<Cell>, after: Option<Cell>,
                    closed0: bool, closed1: bool, closed2: bool, open0: bool, open1: bool, open2: bool)
    requires Settled(before, mid, closed0, closed1, open0, open1)
    requires Settled(mid, after, closed1, closed2, open1, open2)
    ensures Settled(before, after, closed0, closed2, open0, open2)
  {
  }

  /** A slot after `setSolution(true)`, when it holds a cell. */
  function Marked(s: Option<Cell>): Option<Cell> {
    if s.Some? then Some(s.value.(solution := true)) else s
  }

  /**
   * The cell the constructor builds for slot (i, j): the Manhattan distance
   * from slot (i, j) to slot `goal` as heuristic, key `initialCost`, no
   * parent, not on the solution.
   */
  function InitialCell(i: int, j: int, goal: Coord, initialCost: int): Cell {
    Cell(i, j, Abs(i - goal.0) + Abs(j - goal.1), initialCost, None, false)
  }

  /** The slot (i, j) once construction is over, unless an entity blanked it: key 0 at `start`. */
  function InitialSlot(i: int, j: int, goal: Coord, start: Coord, initialCost: int): Option<Cell> {
    var c := InitialCell(i, j, goal, initialCost);
    Some(if (i, j) == start then c.(finalCost := 0) else c)
  }

  /** The first `upto` entries of `ns` are blocked or have entered the frontier (`reached`). */
  ghost predicate Covered(ns: seq<Neighbour>, blocked: set<Coord>, reached: seq<Coord>, upto: int) {
    forall k :: 0 <= k < upto && k < |ns| ==> (ns[k].x, ns[k].y) in blocked || (ns[k].x, ns[k].y) in reached
  }

  /** Every neighbour of `p` that the search examines is blocked or has entered the frontier. */
  ghost predicate Expanded(p: Coord, width: int, height: int, blocked: set<Coord>, reached: seq<Coord>) {
    InGrid(p.0, p.1, width, height) && Covered(Examined(p.0, p.1, width, height), blocked, reached, 8)
  }

  /** Coverage survives growth of the reached cells. */
  lemma CoveredGrows(ns: seq<Neighbour>, blocked: set<Coord>, r1: seq<Coord>, r2: seq<Coord>, upto: int)
    requires Covered(ns, blocked, r1, upto)
    requires forall c :: c in r1 ==> c in r2
    ensures Covered(ns, blocked, r2, upto)
  {
  }

  /** Closing `c` after relaxing its examined neighbours keeps every closed cell expanded. */
  lemma ExpandedAfterRelax(closed0: set<Coord>, closed1: map<Coord, int>, c: Coord, width: int, height: int,
                           blocked: set<Coord>, r1: seq<Coord>, r2: seq<Coord>)
    requires forall p {:trigger Expanded(p, width, height, blocked, r1)} :: p in closed0 ==> Expanded(p, width, height, blocked, r1)
    requires Expanded(c, width, height, blocked, r2)
    requires closed1.Keys == closed0 + {c}
    requires forall x :: x in r1 ==> x in r2
    ensures forall p {:trigger Expanded(p, width, height, blocked, r2)} :: p in closed1 ==> Expanded(p, width, height, blocked, r2)
  {
    forall p | p in closed1 ensures Expanded(p, width, height, blocked, r2) {
      if p != c {
        assert Expanded(p, width, height, blocked, r1);
        CoveredGrows(Examined(p.0, p.1, width, height), blocked, r1, r2, 8);
      }
    }
  }

  /** Coverage extends by one entry that is blocked or reached. */
  lemma CoveredStep(ns: seq<Neighbour>, blocked: set<Coord>, reached: seq<Coord>, k: int)
    requires 0 <= k < |ns| && Covered(ns, blocked, reached, k)
    requires (ns[k].x, ns[k].y) in blocked || (ns[k].x, ns[k].y) in reached
    ensures Covered(ns, blocked, reached, k + 1)
  {
  }

  /** How one turn of the search loop ended. */
  datatype Outcome = Exhausted | ReachedGoal | Continue

  class AStar {
    /** The cells; `None` is a blocked (null) slot. */
    const grid: array2<Option<Cell>>
    /** The set of cells already evaluated. */
    const closedCells: array2<bool>
    /** The frontier: coordinates of the open cells. */
    var openCells: set<Coord>

    // Stored swapped, as the Java constructor does: see the constructor below.
    var startX: int
    var startY: int
    var endX: int
    var endY: int

    /** Position at which each closed cell was closed (0 for the first). */
    ghost var closedAt: map<Coord, nat>
    /** Number of cells closed so far. */
    ghost var steps: nat
    /** The cell the search was seeded with. */
    ghost var root: Option<Coord>
    /** Every insertion into the frontier, in order. */
    ghost var history: seq<Coord>

    predicate InRange(c: Coord) {
      InGrid(c.0, c.1, grid.Length0, grid.Length1)
    }

    /** The coordinates of the slots that hold a cell. */
    ghost function Present(): (s: set<Coord>)
      reads grid
      ensures forall c :: c in s <==> InRange(c) && grid[c.0, c.1].Some?
    {
      set i, j | 0 <= i < grid.Length0 && 0 <= j < grid.Length1 && grid[i, j].Some? :: (i, j)
    }

    /** The contents of every slot, as a value. */
    ghost function Cells(): (m: map<Coord, Option<Cell>>)
      reads grid
      ensures forall i, j :: 0 <= i < grid.Length0 && 0 <= j < grid.Length1 ==> (i, j) in m && m[(i, j)] == grid[i, j]
    {
      map c | c in (set i, j | 0 <= i < grid.Length0 && 0 <= j < grid.Length1 :: (i, j)) :: grid[c.0, c.1]
    }

    /** The parent links of all cells, as a map from child to parent. */
    ghost function ParentMap(): (m: map<Coord, Coord>)
      reads grid
      ensures forall c :: c in m <==> InRange(c) && grid[c.0, c.1].Some? && grid[c.0, c.1].value.parent.Some?
      ensures forall c :: c in m ==> InRange(c) && grid[c.0, c.1].Some? && grid[c.0, c.1].value.parent == Some(m[c])
    {
      map c | c in Present() && grid[c.0, c.1].value.parent.Some? :: grid[c.0, c.1].value.parent.value
    }

    /** Every cell sits in the slot of its own coordinates. */
    ghost predicate CellsInPlace()
      reads grid
    {
      forall i, j :: 0 <= i < grid.Length0 && 0 <= j < grid.Length1 && grid[i, j].Some? ==>
        grid[i, j].value.x == i && grid[i, j].value.y == j
    }

    /** The closed grid and the ghost closing order agree; closed cells are present. */
    ghost predicate ClosedAgree()
      reads this`closedAt, this`steps, grid, closedCells
    {
      && closedCells.Length0 == grid.Length0 && closedCells.Length1 == grid.Length1
      && (forall i, j :: 0 <= i < grid.Length0 && 0 <= j < grid.Length1 ==>
            (closedCells[i, j] <==> (i, j) in closedAt))
      && (forall c :: c in closedAt ==> InRange(c) && grid[c.0, c.1].Some? && closedAt[c] < steps)
    }

    /** What the link from the cell in slot (i, j) to its parent p must satisfy. */
    ghost predicate LinkOk(i: int, j: int, p: Coord)
      reads this`closedAt, grid
      requires 0 <= i < grid.Length0 && 0 <= j < grid.Length1 && grid[i, j].Some?
    {
      && InRange(p) && grid[p.0, p.1].Some? && p in closedAt
      && Relaxes(p, (i, j))
      && ((i, j) in closedAt ==> closedAt[p] < closedAt[(i, j)])
      && grid[i, j].value.finalCost == grid[i, j].value.heuristicCost + grid[p.0, p.1].value.finalCost + StepCost(p, (i, j))
    }

    /** The cell in slot (i, j), if any, has no parent or a parent its link is sound for. */
    ghost predicate SlotLinked(i: int, j: int)
      reads this`closedAt, grid
      requires 0 <= i < grid.Length0 && 0 <= j < grid.Length1
    {
      grid[i, j].Some? && grid[i, j].value.parent.Some? ==> LinkOk(i, j, grid[i, j].value.parent.value)
    }

    /**
     * A parent is a closed neighbour, closed before its child, and the child's
     * key is its heuristic plus the parent's key plus the step.
     */
    ghost predicate Links()
      reads this`closedAt, grid
    {
      forall i, j :: 0 <= i < grid.Length0 && 0 <= j < grid.Length1 ==> SlotLinked(i, j)
    }

    /** The root has no parent and is closed before anything is relaxed; it is the only closed cell without a parent. */
    ghost predicate Rooted()
      reads this`closedAt, this`root, grid
    {
      && (root.Some? ==> InRange(root.value) && grid[root.value.0, root.value.1].Some?
                         && grid[root.value.0, root.value.1].value.parent.None?
                         && (root.value in closedAt || closedAt == map[]))
      && (forall c :: c in closedAt && InRange(c) && grid[c.0, c.1].Some? && grid[c.0, c.1].value.parent.None? ==> root == Some(c))
    }

    /**
     * `open` is a frontier for the closed cells: its cells are present, not
     * closed, and have a parent unless they are the root; each cell entered
     * the frontier at most once, and the cells that did are exactly the open
     * and the closed ones.
     */
    ghost predicate Frontier(open: set<Coord>)
      reads this`closedAt, this`root, this`history, grid
    {
      && (forall c :: c in open ==> InRange(c) && grid[c.0, c.1].Some? && c !in closedAt)
      && (forall c :: c in open && InRange(c) && grid[c.0, c.1].Some? && grid[c.0, c.1].value.parent.None? ==> root == Some(c))
      && NoRepeats(history)
      && (forall c :: c in history <==> c in open || c in closedAt)
    }

    /** The invariant kept by every operation of a search. */
    ghost predicate Valid()
      reads this, grid, closedCells
    {
      CellsInPlace() && ClosedAgree() && Links() && Rooted() && Frontier(openCells)
    }

    /** Nothing has been searched yet. */
    ghost predicate Unsearched()
      reads this
    {
      openCells == {} && closedAt == map[] && steps == 0 && root == None && history == []
    }

    /**
     * The constructor of the Java `AStar` class. It stores start and goal
     * SWAPPED (`startCell(startY, startX)`, `endCell(endY, endX)`). Its body reads the
     * parameters, which shadow those fields: the heuristic of the cell in slot
     * (i, j) is |i - endY| + |j - endX|, the distance to slot (endY, endX),
     * which is (this.endX, this.endY); cost 0 goes to slot (startY, startX),
     * which is (this.startX, this.startY); an entity at (ex, ey) blanks slot
     * (ey, ex). `initialCost` is the finalCost a fresh Cell starts with.
     */
    constructor (width: nat, height: nat, startX: int, startY: int, endX: int, endY: int,
                 entities: seq<Coord>, initialCost: int)
      requires 0 <= startY < width && 0 <= startX < height
      requires forall e :: e in entities ==> 0 <= e.1 < width && 0 <= e.0 < height
      ensures Valid() && Unsearched()
      ensures fresh(grid) && fresh(closedCells)
      ensures grid.Length0 == width && grid.Length1 == height
      ensures this.startX == startY && this.startY == startX && this.endX == endY && this.endY == endX
      ensures forall i, j :: 0 <= i < width && 0 <= j < height ==> !closedCells[i, j]
      ensures forall i, j :: 0 <= i < width && 0 <= j < height ==>
        grid[i, j] == if (j, i) in entities then None
                      else InitialSlot(i, j, (this.endX, this.endY), (this.startX, this.startY), initialCost)
    {
      grid := new Option<Cell>[width, height]((i, j) => None);
      closedCells := new bool[width, height]((i, j) => false);
      openCells := {};
      closedAt, steps, root, history := map[], 0, None, [];
      new;
      StartCell(startY, startX);
      EndCell(endY, endX);
      FillCells(endX, endY, initialCost);
      grid[startY, startX] := Some(grid[startY, startX].value.(finalCost := 0));

      ghost var goal, start := (this.endX, this.endY), (this.startX, this.startY);
      assert forall i, j :: 0 <= i < width && 0 <= j < height ==>
        grid[i, j] == InitialSlot(i, j, goal, start, initialCost);
      ParentlessValid();

      BlockEntities(entities);
    }

    /** The constructor's loop over the entities: each one blanks its (transposed) slot. */
    method BlockEntities(entities: seq<Coord>)
      requires forall e :: e in entities ==> 0 <= e.1 < grid.Length0 && 0 <= e.0 < grid.Length1
      modifies grid
      ensures forall i, j :: 0 <= i < grid.Length0 && 0 <= j < grid.Length1 ==>
        grid[i, j] == if (j, i) in entities then None else old(grid[i, j])
      ensures old(Valid() && Unsearched()) ==> Valid() && Unsearched()
    {
      for k := 0 to |entities|
        invariant old(Valid() && Unsearched()) ==> Valid() && Unsearched()
        invariant forall i, j :: 0 <= i < grid.Length0 && 0 <= j < grid.Length1 ==>
          grid[i, j] == if (j, i) in entities[..k] then None else old(grid[i, j])
      {
        assert entities[..k + 1] == entities[..k] + [entities[k]];
        AddBlockOnCell(entities[k].0, entities[k].1);
      }
      assert entities[..|entities|] == entities;
    }

    /**
     * The constructor's double loop: a fresh cell in every slot, its heuristic
     * measured to slot (endY, endX) of the constructor's parameters.
     */
    method FillCells(endX: int, endY: int, initialCost: int)
      modifies grid
      ensures forall i, j :: 0 <= i < grid.Length0 && 0 <= j < grid.Length1 ==>
        grid[i, j] == Some(InitialCell(i, j, (endY, endX), initialCost))
    {
      for i := 0 to grid.Length0
        invariant forall a, b :: 0 <= a < i && 0 <= b < grid.Length1 ==>
          grid[a, b] == Some(InitialCell(a, b, (endY, endX), initialCost))
      {
        for j := 0 to grid.Length1
          invariant forall a, b :: 0 <= a < i && 0 <= b < grid.Length1 ==>
            grid[a, b] == Some(InitialCell(a, b, (endY, endX), initialCost))
          invariant forall b :: 0 <= b < j ==> grid[i, b] == Some(InitialCell(i, b, (endY, endX), initialCost))
        {
          grid[i, j] := Some(Cell(i, j, Abs(i - endY) + Abs(j - endX), initialCost, None, false));
        }
      }
    }

    /** Before any search, a grid whose cells sit in place and have no parents satisfies the invariant. */
    lemma ParentlessValid()
      requires Unsearched()
      requires closedCells.Length0 == grid.Length0 && closedCells.Length1 == grid.Length1
      requires forall i, j :: 0 <= i < grid.Length0 && 0 <= j < grid.Length1 ==> !closedCells[i, j]
      requires forall i, j :: 0 <= i < grid.Length0 && 0 <= j < grid.Length1 && grid[i, j].Some? ==>
        grid[i, j].value.x == i && grid[i, j].value.y == j && grid[i, j].value.parent.None?
      ensures Valid()
    {
    }

    /** Blocks the slot of an entity at (x, y); AStar.java indexes it as grid[y][x]. */
    method AddBlockOnCell(x: int, y: int)
      requires 0 <= y < grid.Length0 && 0 <= x < grid.Length1
      modifies grid
      ensures grid[y, x] == None
      ensures forall i, j :: 0 <= i < grid.Length0 && 0 <= j < grid.Length1 && (i, j) != (y, x) ==>
        grid[i, j] == old(grid[i, j])
      ensures old(Valid() && Unsearched()) ==> Valid() && Unsearched()
    {
      grid[y, x] := None;
      if old(Valid() && Unsearched()) {
        forall i, j | 0 <= i < grid.Length0 && 0 <= j < grid.Length1 ensures SlotLinked(i, j) {
          assert old(SlotLinked(i, j));
        }
      }
    }

    method StartCell(x: int, y: int)
      modifies this`startX, this`startY
      ensures startX == x && startY == y
    {
      startX := x;
      startY := y;
    }

    method EndCell(x: int, y: int)
      modifies this`endX, this`endY
      ensures endX == x && endY == y
    {
      endX := x;
      endY := y;
    }

    /** What the invariant needs of a relaxation: `current` is a closed cell of the grid, `t` one of its neighbours, `cost` its key plus the step. */
    ghost predicate Relaxing(current: Cell, t: Option<Cell>, cost: int)
      reads this, grid
    {
      && InRange((current.x, current.y)) && grid[current.x, current.y] == Some(current)
      && (current.x, current.y) in closedAt
      && (t.Some? ==> Relaxes((current.x, current.y), (t.value.x, t.value.y))
                      && cost == current.finalCost + StepCost((current.x, current.y), (t.value.x, t.value.y)))
    }

    /**
     * Relaxes `t` from `current` with `cost` (the current cell's key plus the
     * step). A missing or closed `t` is left alone; otherwise t gets key
     * h(t) + cost and parent `current` when it is not open or the new key is
     * strictly smaller, and it enters the frontier when it was not open.
     */
    method UpdateCostIfNeeded(current: Cell, t: Option<Cell>, cost: int)
      requires closedCells.Length0 == grid.Length0 && closedCells.Length1 == grid.Length1
      requires t.Some? ==> InRange((t.value.x, t.value.y)) && grid[t.value.x, t.value.y] == t
      modifies this`openCells, this`history, grid
      ensures forall i, j :: 0 <= i < grid.Length0 && 0 <= j < grid.Length1 && (t.None? || (i, j) != (t.value.x, t.value.y)) ==>
        grid[i, j] == old(grid[i, j])
      ensures t.None? || closedCells[t.value.x, t.value.y] ==>
        openCells == old(openCells) && history == old(history) && (t.Some? ==> grid[t.value.x, t.value.y] == t)
      ensures t.Some? && !closedCells[t.value.x, t.value.y] ==>
        var tc, newCost := (t.value.x, t.value.y), t.value.heuristicCost + cost;
        var isOpen := tc in old(openCells);
        && grid[tc.0, tc.1] == (if !isOpen || newCost < t.value.finalCost
                                then Some(t.value.(finalCost := newCost, parent := Some((current.x, current.y))))
                                else t)
        && openCells == (if isOpen then old(openCells) else old(openCells) + {tc})
        && history == (if isOpen then old(history) else old(history) + [tc])
      ensures t.Some? && (t.value.x, t.value.y) in old(openCells) ==>
        grid[t.value.x, t.value.y].value.finalCost <= t.value.finalCost
      ensures forall i, j :: 0 <= i < grid.Length0 && 0 <= j < grid.Length1 ==> SameShape(grid[i, j], old(grid[i, j]))
      ensures old(Valid() && Relaxing(current, t, cost)) ==> Valid()
    {
      if t.None? || closedCells[t.value.x, t.value.y] {
        return;
      }
      var cell := t.value;
      var tFinalCost := cell.heuristicCost + cost;
      var isOpen := (cell.x, cell.y) in openCells;

      if !isOpen || tFinalCost < cell.finalCost {
        Reprice(current, cell, cost);
      }
    }

    /**
     * The update branch of `UpdateCostIfNeeded`: the unclosed `cell` gets key
     * h(cell) + `cost` and parent `current`, and enters the frontier when it
     * was not open.
     */
    method Reprice(current: Cell, cell: Cell, cost: int)
      requires closedCells.Length0 == grid.Length0 && closedCells.Length1 == grid.Length1
      requires InRange((cell.x, cell.y)) && grid[cell.x, cell.y] == Some(cell) && !closedCells[cell.x, cell.y]
      modifies this`openCells, this`history, grid
      ensures grid[cell.x, cell.y] == Some(cell.(finalCost := cell.heuristicCost + cost, parent := Some((current.x, current.y))))
      ensures forall i, j :: 0 <= i < grid.Length0 && 0 <= j < grid.Length1 && (i, j) != (cell.x, cell.y) ==>
        grid[i, j] == old(grid[i, j])
      ensures openCells == old(openCells) + {(cell.x, cell.y)}
      ensures history == if (cell.x, cell.y) in old(openCells) then old(history) else old(history) + [(cell.x, cell.y)]
      ensures old(Valid() && Relaxing(current, Some(cell), cost)) ==> Valid()
    {
      ghost var wasValid := Valid() && Relaxing(current, Some(cell), cost);
      grid[cell.x, cell.y] := Some(cell.(finalCost := cell.heuristicCost + cost, parent := Some((current.x, current.y))));
      if (cell.x, cell.y) !in openCells {
        openCells := openCells + {(cell.x, cell.y)};
        history := history + [(cell.x, cell.y)];
      }
      if wasValid {
        RelaxKeepsValid(grid[cell.x, cell.y].value);
      }
    }

    /**
     * Writing `updated` (a new key and a parent) into the slot of an open or
     * unseen cell keeps the invariant when the parent is a closed neighbour
     * and the key is the heuristic plus the parent's key plus the step.
     */
    twostate lemma RelaxKeepsValid(updated: Cell)
      requires old(Valid())
      requires InRange((updated.x, updated.y)) && updated.parent.Some? && (updated.x, updated.y) !in old(closedAt)
      requires var p, tc := updated.parent.value, (updated.x, updated.y);
        && old(grid[tc.0, tc.1]).Some? && grid[tc.0, tc.1] == Some(updated)
        && old(grid[tc.0, tc.1]).value == updated.(finalCost := old(grid[tc.0, tc.1]).value.finalCost,
                                                   parent := old(grid[tc.0, tc.1]).value.parent)
        && InRange(p) && p in old(closedAt) && Relaxes(p, tc) && old(grid[p.0, p.1]).Some?
        && updated.finalCost == updated.heuristicCost + old(grid[p.0, p.1]).value.finalCost + StepCost(p, tc)
      requires forall i, j :: 0 <= i < grid.Length0 && 0 <= j < grid.Length1 && (i, j) != (updated.x, updated.y) ==>
        grid[i, j] == old(grid[i, j])
      requires unchanged(closedCells) && closedAt == old(closedAt) && steps == old(steps) && root == old(root)
      requires openCells == old(openCells) + {(updated.x, updated.y)}
      requires history == if (updated.x, updated.y) in old(openCells) then old(history) else old(history) + [(updated.x, updated.y)]
      ensures Valid()
    {
      var tc := (updated.x, updated.y);
      RelaxKeepsLinks(updated);
      RelaxKeepsFrontier(updated);
      RelaxKeepsPlaces(updated);
    }

    /** The part of `RelaxKeepsValid` about the frontier. */
    twostate lemma RelaxKeepsFrontier(updated: Cell)
      requires old(Frontier(openCells)) && closedAt == old(closedAt) && root == old(root)
      requires InRange((updated.x, updated.y)) && updated.parent.Some? && (updated.x, updated.y) !in closedAt
      requires grid[updated.x, updated.y] == Some(updated)
      requires forall i, j :: 0 <= i < grid.Length0 && 0 <= j < grid.Length1 && (i, j) != (updated.x, updated.y) ==>
        grid[i, j] == old(grid[i, j])
      requires openCells == old(openCells) + {(updated.x, updated.y)}
      requires history == if (updated.x, updated.y) in old(openCells) then old(history) else old(history) + [(updated.x, updated.y)]
      ensures Frontier(openCells)
    {
      var tc := (updated.x, updated.y);
      if tc !in old(openCells) {
        NoRepeatsAppend(old(history), tc);
      }
    }

    /** The part of `RelaxKeepsValid` about cell positions, the closed set and the root. */
    twostate lemma RelaxKeepsPlaces(updated: Cell)
      requires old(CellsInPlace() && ClosedAgree() && Rooted())
      requires unchanged(closedCells) && closedAt == old(closedAt) && steps == old(steps) && root == old(root)
      requires InRange((updated.x, updated.y)) && updated.parent.Some? && (updated.x, updated.y) !in closedAt
      requires updated.parent.value in closedAt
      requires grid[updated.x, updated.y] == Some(updated)
      requires forall i, j :: 0 <= i < grid.Length0 && 0 <= j < grid.Length1 && (i, j) != (updated.x, updated.y) ==>
        grid[i, j] == old(grid[i, j])
      ensures CellsInPlace() && ClosedAgree() && Rooted()
    {
    }

    /** The part of `RelaxKeepsValid` about parent links. */
    twostate lemma RelaxKeepsLinks(updated: Cell)
      requires old(Links()) && closedAt == old(closedAt)
      requires InRange((updated.x, updated.y)) && updated.parent.Some? && (updated.x, updated.y) !in closedAt
      requires var p, tc := updated.parent.value, (updated.x, updated.y);
        && grid[tc.0, tc.1] == Some(updated)
        && InRange(p) && p in closedAt && Relaxes(p, tc) && old(grid[p.0, p.1]).Some?
        && updated.finalCost == updated.heuristicCost + old(grid[p.0, p.1]).value.finalCost + StepCost(p, tc)
      requires forall i, j :: 0 <= i < grid.Length0 && 0 <= j < grid.Length1 && (i, j) != (updated.x, updated.y) ==>
        grid[i, j] == old(grid[i, j])
      ensures Links()
    {
      var tc := (updated.x, updated.y);
      forall i, j | 0 <= i < grid.Length0 && 0 <= j < grid.Length1 ensures SlotLinked(i, j) {
        assert old(SlotLinked(i, j));
        if (i, j) != tc && grid[i, j].Some? && grid[i, j].value.parent.Some? {
          assert grid[i, j].value.parent.value != tc;
        }
      }
    }

    /** The frontier's poll: removes and returns some open cell, or None when the frontier is empty. */
    method Poll() returns (c: Option<Coord>)
      modifies this`openCells
      ensures old(openCells) == {} ==> c == None && openCells == old(openCells)
      ensures old(openCells) != {} ==> c.Some? && c.value in old(openCells) && openCells == old(openCells) - {c.value}
    {
      if openCells == {} {
        return None;
      }
      var x :| x in openCells;
      openCells := openCells - {x};
      return Some(x);
    }

    /**
     * The Java `closedCells[x][y] = true` for the cell just polled, with the
     * ghost record of when it was closed. `open` before the call is the
     * frontier without that cell.
     */
    method MarkClosed(x: int, y: int)
      requires InRange((x, y)) && (x, y) !in openCells
      requires CellsInPlace() && ClosedAgree() && Links() && Rooted() && Frontier(openCells + {(x, y)})
      modifies closedCells, this`closedAt, this`steps
      ensures closedCells[x, y]
      ensures forall i, j :: 0 <= i < closedCells.Length0 && 0 <= j < closedCells.Length1 && (i, j) != (x, y) ==>
        closedCells[i, j] == old(closedCells[i, j])
      ensures (x, y) !in old(closedAt) && closedAt == old(closedAt)[(x, y) := old(steps)] && steps == old(steps) + 1
      ensures Valid()
    {
      closedCells[x, y] := true;
      closedAt := closedAt[(x, y) := steps];
      steps := steps + 1;
      ClosingKeepsLinks((x, y));
      if old(closedAt) == map[] {
        // Nothing was closed, so nothing had a parent: the cell closed now is the root.
        assert old(SlotLinked(x, y));
      }
      assert ClosedAgree() && Rooted();
    }

    /** Closing `c` at the current step keeps every parent link sound. */
    twostate lemma ClosingKeepsLinks(c: Coord)
      requires old(Links()) && unchanged(grid) && c !in old(closedAt)
      requires forall q :: q in old(closedAt) ==> old(closedAt)[q] < old(steps)
      requires closedAt == old(closedAt)[c := old(steps)]
      ensures Links()
    {
      forall i, j | 0 <= i < grid.Length0 && 0 <= j < grid.Length1 ensures SlotLinked(i, j) {
        assert old(SlotLinked(i, j));
      }
    }

    /**
     * The head of the loop of the Java `process`: polls the frontier and,
     * when it was not empty, marks the polled cell closed. Returns that cell, or None when the
     * frontier was empty (and then nothing changes).
     */
    method CloseNext() returns (next: Option<Cell>)
      requires Valid()
      modifies this`openCells, closedCells, this`closedAt, this`steps
      ensures Valid()
      ensures old(openCells) == {} ==>
        next.None? && openCells == old(openCells) && closedAt == old(closedAt) && steps == old(steps) && unchanged(closedCells)
      ensures old(openCells) != {} ==>
        next.Some? && var c := (next.value.x, next.value.y);
        && c in old(openCells) && openCells == old(openCells) - {c}
        && InRange(c) && grid[c.0, c.1] == next
        && c !in old(closedAt) && closedAt == old(closedAt)[c := old(steps)] && steps == old(steps) + 1
        && closedCells[c.0, c.1]
        && (forall i, j :: 0 <= i < closedCells.Length0 && 0 <= j < closedCells.Length1 && (i, j) != c ==>
              closedCells[i, j] == old(closedCells[i, j]))
    {
      ghost var open0 := openCells;
      var polled := Poll();
      if polled.None? {
        return None;
      }
      var c := polled.value;
      assert openCells + {c} == open0;
      var current := grid[c.0, c.1].value;
      MarkClosed(current.x, current.y);
      return Some(current);
    }

    /** The closed cells are among the width * height coordinates of the grid, so there are at most that many. */
    lemma ClosedFitGrid()
      requires Valid()
      ensures |closedAt| <= grid.Length0 * grid.Length1
    {
      forall c | c in closedAt.Keys ensures c in AllCoords(grid.Length0, grid.Length1) {
        AllCoordsMembers(grid.Length0, grid.Length1, c);
      }
      SubsetCard(closedAt.Keys, AllCoords(grid.Length0, grid.Length1));
      AllCoordsCard(grid.Length0, grid.Length1);
    }

    /**
     * When the frontier is empty and every closed cell had its neighbours
     * examined, no relaxation step leaves the closed cells for a present one.
     */
    lemma ExhaustedClosesUnderSteps(blocked: set<Coord>)
      requires Valid() && openCells == {}
      requires forall i, j :: 0 <= i < grid.Length0 && 0 <= j < grid.Length1 ==> (grid[i, j].None? <==> (i, j) in blocked)
      requires forall p {:trigger Expanded(p, grid.Length0, grid.Length1, blocked, history)} ::
          p in closedAt ==> Expanded(p, grid.Length0, grid.Length1, blocked, history)
      ensures ClosedUnderSteps(closedAt.Keys, Present())
    {
      forall p, n | p in closedAt.Keys && n in Present() && Relaxes(p, n) ensures n in closedAt.Keys {
        assert Expanded(p, grid.Length0, grid.Length1, blocked, history);
        ExaminedComplete(p.0, p.1, grid.Length0, grid.Length1, n);
        var ns := Examined(p.0, p.1, grid.Length0, grid.Length1);
        var k :| 0 <= k < |ns| && ns[k] == Neighbour(n.0, n.1, StepCost(p, n));
        assert n !in blocked;
      }
    }

    /**
     * Once the frontier is dry, no walk of relaxation steps through present
     * cells leads from a closed cell `from` to a cell `to` that is not closed.
     */
    lemma ExhaustedUnreachable(blocked: set<Coord>, from: Coord, to: Coord)
      requires Valid() && openCells == {}
      requires forall i, j :: 0 <= i < grid.Length0 && 0 <= j < grid.Length1 ==> (grid[i, j].None? <==> (i, j) in blocked)
      requires forall p {:trigger Expanded(p, grid.Length0, grid.Length1, blocked, history)} ::
          p in closedAt ==> Expanded(p, grid.Length0, grid.Length1, blocked, history)
      requires from in closedAt && to !in closedAt
      ensures forall w :: IsWalk(w, Present()) && w[0] == from ==> w[|w| - 1] != to
    {
      ExhaustedClosesUnderSteps(blocked);
      forall w | IsWalk(w, Present()) && w[0] == from ensures w[|w| - 1] != to {
        WalkStaysInside(closedAt.Keys, Present(), w);
      }
    }

    /**
     * The guarded `updateCostIfNeeded` calls of the Java `process` for the
     * closed cell `current`: each neighbour of `ns` (one relaxation step away,
     * with its step cost) is relaxed in turn. Afterwards each of them is
     * blocked or has entered the frontier. Slot by slot (`Evolved`): only the
     * slots of `ns` can change, closed cells (`current` among them) are
     * untouched, no open cell's key grows, and a cell is open afterwards
     * exactly when it was open before or it is an examined, present cell that
     * is not closed; each such cell ends with a key of at most h + key(current)
     * + step, and a cell that changed or became open has parent `current` and
     * exactly that key.
     */
    method RelaxNeighbours(current: Cell, ns: seq<Neighbour>, ghost blocked: set<Coord>)
      requires Valid() && InRange((current.x, current.y))
      requires grid[current.x, current.y] == Some(current) && (current.x, current.y) in closedAt
      requires forall m :: m in ns ==> InRange((m.x, m.y)) && Relaxes((current.x, current.y), (m.x, m.y))
                                       && m.step == StepCost((current.x, current.y), (m.x, m.y))
      requires forall i, j :: 0 <= i < grid.Length0 && 0 <= j < grid.Length1 ==> (grid[i, j].None? <==> (i, j) in blocked)
      modifies this`openCells, this`history, grid
      ensures Valid() && grid[current.x, current.y] == Some(current)
      ensures forall i, j :: 0 <= i < grid.Length0 && 0 <= j < grid.Length1 ==>
        Evolved(old(grid[i, j]), grid[i, j], (i, j) in Targets(ns), (i, j) in closedAt, (i, j) in old(openCells), (i, j) in openCells,
                (current.x, current.y), RelaxedKey(current, (i, j)))
      ensures forall i, j :: 0 <= i < grid.Length0 && 0 <= j < grid.Length1 ==> (grid[i, j].None? <==> (i, j) in blocked)
      ensures forall c :: c in old(history) ==> c in history
      ensures Covered(ns, blocked, history, |ns|)
    {
      for k := 0 to |ns|
        invariant Valid() && grid[current.x, current.y] == Some(current)
        invariant forall i, j :: 0 <= i < grid.Length0 && 0 <= j < grid.Length1 ==>
          Evolved(old(grid[i, j]), grid[i, j], (i, j) in Targets(ns[..k]), (i, j) in closedAt, (i, j) in old(openCells), (i, j) in openCells,
                  (current.x, current.y), RelaxedKey(current, (i, j)))
        invariant forall i, j :: 0 <= i < grid.Length0 && 0 <= j < grid.Length1 ==> (grid[i, j].None? <==> (i, j) in blocked)
        invariant forall c :: c in old(history) ==> c in history
        invariant Covered(ns, blocked, history, k)
      {
        var m := ns[k];
        ghost var history0 := history;
        TargetsSnoc(ns, k);
        label Before:
        RelaxOne(current, m, blocked);
        forall i, j | 0 <= i < grid.Length0 && 0 <= j < grid.Length1
          ensures Evolved(old(grid[i, j]), grid[i, j], (i, j) in Targets(ns[..k + 1]), (i, j) in closedAt,
                          (i, j) in old(openCells), (i, j) in openCells,
                          (current.x, current.y), RelaxedKey(current, (i, j)))
        {
          EvolvedThen(old(grid[i, j]), old@Before(grid[i, j]), grid[i, j], (i, j) in Targets(ns[..k]), (i, j) == (m.x, m.y),
                      (i, j) in closedAt, (i, j) in old(openCells), (i, j) in old@Before(openCells), (i, j) in openCells,
                      (current.x, current.y), RelaxedKey(current, (i, j)));
        }
        CoveredGrows(ns, blocked, history0, history, k);
        CoveredStep(ns, blocked, history, k);
      }
      assert ns[..|ns|] == ns;
    }

    /**
     * One turn of the loop of `RelaxNeighbours`: relaxes the neighbour `m` of
     * `current`. Only the slot of `m` can change. A blocked or closed `m` is
     * left alone; otherwise `m` gets key h(m) + key(current) + step and parent
     * `current` when it was not open or the new key is strictly smaller, and
     * it is open afterwards.
     */
    method RelaxOne(current: Cell, m: Neighbour, ghost blocked: set<Coord>)
      requires Valid() && InRange((current.x, current.y))
      requires grid[current.x, current.y] == Some(current) && (current.x, current.y) in closedAt
      requires InRange((m.x, m.y)) && Relaxes((current.x, current.y), (m.x, m.y))
      requires m.step == StepCost((current.x, current.y), (m.x, m.y))
      requires forall i, j :: 0 <= i < grid.Length0 && 0 <= j < grid.Length1 ==> (grid[i, j].None? <==> (i, j) in blocked)
      modifies this`openCells, this`history, grid
      ensures Valid() && grid[current.x, current.y] == Some(current)
      ensures forall i, j :: 0 <= i < grid.Length0 && 0 <= j < grid.Length1 ==> SameShape(grid[i, j], old(grid[i, j]))
      ensures forall i, j :: 0 <= i < grid.Length0 && 0 <= j < grid.Length1 ==> (grid[i, j].None? <==> (i, j) in blocked)
      ensures forall i, j :: 0 <= i < grid.Length0 && 0 <= j < grid.Length1 && (i, j) != (m.x, m.y) ==>
        grid[i, j] == old(grid[i, j])
      ensures (m.x, m.y) in blocked || (m.x, m.y) in closedAt ==>
        grid[m.x, m.y] == old(grid[m.x, m.y]) && openCells == old(openCells)
      ensures (m.x, m.y) !in blocked && (m.x, m.y) !in closedAt ==>
        var t := old(grid[m.x, m.y]).value;
        var newCost, isOpen := t.heuristicCost + current.finalCost + m.step, (m.x, m.y) in old(openCells);
        && grid[m.x, m.y] == (if !isOpen || newCost < t.finalCost
                              then Some(t.(finalCost := newCost, parent := Some((current.x, current.y))))
                              else Some(t))
        && openCells == old(openCells) + {(m.x, m.y)}
      ensures (m.x, m.y) in old(openCells) ==>
        grid[m.x, m.y].Some? && grid[m.x, m.y].value.finalCost <= old(grid[m.x, m.y]).value.finalCost
      ensures forall i, j :: 0 <= i < grid.Length0 && 0 <= j < grid.Length1 ==>
        Evolved(old(grid[i, j]), grid[i, j], (i, j) == (m.x, m.y), (i, j) in closedAt, (i, j) in old(openCells), (i, j) in openCells,
                (current.x, current.y), RelaxedKey(current, (i, j)))
      ensures forall c :: c in old(history) ==> c in history
      ensures (m.x, m.y) in blocked || (m.x, m.y) in history
    {
      var t := grid[m.x, m.y];
      assert t.Some? ==> t.value.x == m.x && t.value.y == m.y;
      assert Relaxing(current, t, current.finalCost + m.step);
      UpdateCostIfNeeded(current, t, current.finalCost + m.step);
    }

    /** The slots that hold no cell. */
    ghost function Blocked(): (b: set<Coord>)
      reads grid
      ensures forall i, j :: 0 <= i < grid.Length0 && 0 <= j < grid.Length1 ==> (grid[i, j].None? <==> (i, j) in b)
    {
      set i, j | 0 <= i < grid.Length0 && 0 <= j < grid.Length1 && grid[i, j].None? :: (i, j)
    }

    /** What holds between two turns of the search loop seeded at `seed`, with `blocked` the blocked slots. */
    ghost predicate Searching(seed: Coord, blocked: set<Coord>)
      reads this, grid, closedCells
    {
      && Valid() && root == Some(seed) && seed in history
      && (forall i, j :: 0 <= i < grid.Length0 && 0 <= j < grid.Length1 ==> (grid[i, j].None? <==> (i, j) in blocked))
      && (forall p {:trigger Expanded(p, grid.Length0, grid.Length1, blocked, history)} ::
            p in closedAt ==> Expanded(p, grid.Length0, grid.Length1, blocked, history))
    }

    /**
     * One turn of the loop of the Java `process`: poll; stop when the
     * frontier was empty; close the polled cell; stop when it is the cell of
     * slot (endX, endY); otherwise relax its examined neighbours. `current` is
     * the polled cell. Only a turn that goes on changes the grid, and then
     * slot by slot as `Expand` states; a turn that reaches the goal only
     * removes it from the frontier and closes it; in every turn closed cells
     * keep their cell and open keys do not grow (`Settled`).
     */
    method Step(seed: Coord, ghost blocked: set<Coord>) returns (outcome: Outcome, ghost current: Cell)
      requires Searching(seed, blocked) && InRange((endX, endY)) && (endX, endY) !in closedAt
      modifies this`openCells, this`closedAt, this`steps, this`history, grid, closedCells
      ensures outcome == Exhausted ==> Searching(seed, blocked) && openCells == {} && closedAt == old(closedAt)
      ensures outcome == Continue ==> Searching(seed, blocked)
      ensures outcome == ReachedGoal ==>
        && Valid() && root == Some(seed)
        && forall i, j :: 0 <= i < grid.Length0 && 0 <= j < grid.Length1 ==> (grid[i, j].None? <==> (i, j) in blocked)
      ensures outcome != Exhausted ==> var c := (current.x, current.y);
        && InRange(c) && c in old(openCells) && old(grid[c.0, c.1]) == Some(current)
        && c !in old(closedAt) && closedAt == old(closedAt)[c := old(steps)] && steps == old(steps) + 1
        && (outcome == ReachedGoal <==> c == (endX, endY))
      ensures outcome == ReachedGoal ==>
        openCells == old(openCells) - {(current.x, current.y)} && history == old(history)
      ensures outcome != Continue ==> unchanged(grid)
      ensures forall i, j :: 0 <= i < grid.Length0 && 0 <= j < grid.Length1 ==>
        && Settled(old(grid[i, j]), grid[i, j], (i, j) in old(closedAt), (i, j) in closedAt, (i, j) in old(openCells), (i, j) in openCells)
        && (outcome == Continue ==>
              Evolved(old(grid[i, j]), grid[i, j], (i, j) in Targets(Examined(current.x, current.y, grid.Length0, grid.Length1)),
                      (i, j) in closedAt, (i, j) in old(openCells) - {(current.x, current.y)}, (i, j) in openCells,
                      (current.x, current.y), RelaxedKey(current, (i, j))))
    {
      var next := CloseNext();
      if next.None? {
        current := *;
        return Exhausted, current;
      }
      var polled := next.value;
      current := polled;
      outcome := Advance(polled, seed, blocked, old(closedAt).Keys, old(openCells));
    }

    /**
     * The rest of a turn once `current` has been polled from `open0` and
     * closed: stop when it is the cell of slot (endX, endY), otherwise expand
     * it.
     */
    method Advance(current: Cell, seed: Coord, ghost blocked: set<Coord>, ghost expanded: set<Coord>, ghost open0: set<Coord>)
      returns (outcome: Outcome)
      requires Valid() && root == Some(seed) && seed in history && InRange((endX, endY))
      requires forall i, j :: 0 <= i < grid.Length0 && 0 <= j < grid.Length1 ==> (grid[i, j].None? <==> (i, j) in blocked)
      requires InRange((current.x, current.y)) && grid[current.x, current.y] == Some(current)
      requires closedAt.Keys == expanded + {(current.x, current.y)} && openCells == open0 - {(current.x, current.y)}
      requires forall p {:trigger Expanded(p, grid.Length0, grid.Length1, blocked, history)} ::
          p in expanded ==> Expanded(p, grid.Length0, grid.Length1, blocked, history)
      modifies this`openCells, this`history, grid
      ensures outcome != Exhausted && (outcome == ReachedGoal <==> (current.x, current.y) == (endX, endY))
      ensures outcome == ReachedGoal ==> unchanged(this) && unchanged(grid)
      ensures outcome == Continue ==> Searching(seed, blocked)
      ensures forall i, j :: 0 <= i < grid.Length0 && 0 <= j < grid.Length1 ==>
        && Settled(old(grid[i, j]), grid[i, j], (i, j) in expanded, (i, j) in closedAt, (i, j) in open0, (i, j) in openCells)
        && (outcome == Continue ==>
              Evolved(old(grid[i, j]), grid[i, j], (i, j) in Targets(Examined(current.x, current.y, grid.Length0, grid.Length1)),
                      (i, j) in closedAt, (i, j) in open0 - {(current.x, current.y)}, (i, j) in openCells,
                      (current.x, current.y), RelaxedKey(current, (i, j))))
    {
      assert CellsInPlace();
      if Some(current) == grid[endX, endY] {
        return ReachedGoal;
      }
      Expand(current, seed, blocked, expanded, open0);
      return Continue;
    }

    /**
     * The tail of one turn of the loop of the Java `process`: the examined
     * neighbours of the just closed `current` are relaxed, after which every
     * closed cell, `current` included, has had its neighbours examined. Slot by slot, the
     * grid and the frontier evolve as `RelaxNeighbours` states for the
     * examined neighbours of `current`; measured from before `current` was
     * polled from `open0` and closed, the turn is `Settled`.
     */
    method Expand(current: Cell, seed: Coord, ghost blocked: set<Coord>, ghost expanded: set<Coord>, ghost open0: set<Coord>)
      requires Valid() && root == Some(seed) && seed in history
      requires forall i, j :: 0 <= i < grid.Length0 && 0 <= j < grid.Length1 ==> (grid[i, j].None? <==> (i, j) in blocked)
      requires InRange((current.x, current.y)) && grid[current.x, current.y] == Some(current)
      requires closedAt.Keys == expanded + {(current.x, current.y)} && openCells == open0 - {(current.x, current.y)}
      requires forall p {:trigger Expanded(p, grid.Length0, grid.Length1, blocked, history)} ::
          p in expanded ==> Expanded(p, grid.Length0, grid.Length1, blocked, history)
      modifies this`openCells, this`history, grid
      ensures Searching(seed, blocked)
      ensures forall i, j :: 0 <= i < grid.Length0 && 0 <= j < grid.Length1 ==>
        Evolved(old(grid[i, j]), grid[i, j], (i, j) in Targets(Examined(current.x, current.y, grid.Length0, grid.Length1)),
                (i, j) in closedAt, (i, j) in open0 - {(current.x, current.y)}, (i, j) in openCells,
                (current.x, current.y), RelaxedKey(current, (i, j)))
      ensures forall i, j :: 0 <= i < grid.Length0 && 0 <= j < grid.Length1 ==>
        Settled(old(grid[i, j]), grid[i, j], (i, j) in expanded, (i, j) in closedAt, (i, j) in open0, (i, j) in openCells)
    {
      var ns := Examined(current.x, current.y, grid.Length0, grid.Length1);
      RelaxNeighbours(current, ns, blocked);
      assert Expanded((current.x, current.y), grid.Length0, grid.Length1, blocked, history);
      ExpandedAfterRelax(expanded, closedAt, (current.x, current.y), grid.Length0, grid.Length1, blocked, old(history), history);
    }

    /** The first statement of the Java `process`: the cell of slot (startX, startY) is offered to the frontier. */
    method OpenStart()
      requires Valid() && Unsearched()
      requires InRange((startX, startY)) && grid[startX, startY].Some?
      modifies this`openCells, this`root, this`history
      ensures Valid() && root == Some((startX, startY))
      ensures openCells == {(startX, startY)} && history == [(startX, startY)]
      ensures closedAt == map[] && steps == 0
    {
      var seed := (startX, startY);
      assert SlotLinked(seed.0, seed.1);
      openCells := openCells + {seed};
      root, history := Some(seed), [seed];
    }

    /**
     * Measured from the slots `cells0`, the closed cells `closed0` and the
     * frontier `open0` of an earlier state, every slot has changed only as
     * `Settled` allows: closed cells keep their cell, open keys did not grow.
     */
    ghost predicate KeptSince(cells0: map<Coord, Option<Cell>>, closed0: set<Coord>, open0: set<Coord>)
      reads this, grid
    {
      forall i, j :: 0 <= i < grid.Length0 && 0 <= j < grid.Length1 ==>
        (i, j) in cells0 && Settled(cells0[(i, j)], grid[i, j], (i, j) in closed0, (i, j) in closedAt, (i, j) in open0, (i, j) in openCells)
    }

    /** Measured from the current state, nothing has changed yet. */
    lemma KeptSinceNow()
      requires Valid()
      ensures KeptSince(Cells(), closedAt.Keys, openCells)
    {
    }

    /** Slots that have only `Settled` away from `cells0` keep their shape. */
    lemma KeptShapes(cells0: map<Coord, Option<Cell>>, closed0: set<Coord>, open0: set<Coord>)
      requires KeptSince(cells0, closed0, open0)
      ensures forall i, j :: 0 <= i < grid.Length0 && 0 <= j < grid.Length1 ==> (i, j) in cells0 && SameShape(cells0[(i, j)], grid[i, j])
    {
    }

    /**
     * One turn of the search loop, with every clause of `Step`, keeping track
     * of how the slots have changed since the state `cells0`, `closed0`,
     * `open0`.
     */
    method SettledStep(seed: Coord, ghost blocked: set<Coord>, ghost cells0: map<Coord, Option<Cell>>,
                       ghost closed0: set<Coord>, ghost open0: set<Coord>) returns (outcome: Outcome, ghost current: Cell)
      requires Searching(seed, blocked) && InRange((endX, endY)) && (endX, endY) !in closedAt
      requires KeptSince(cells0, closed0, open0)
      modifies this`openCells, this`closedAt, this`steps, this`history, grid, closedCells
      ensures outcome == Exhausted ==> Searching(seed, blocked) && openCells == {} && closedAt == old(closedAt)
      ensures outcome == Continue ==> Searching(seed, blocked)
      ensures outcome == ReachedGoal ==>
        && Valid() && root == Some(seed)
        && forall i, j :: 0 <= i < grid.Length0 && 0 <= j < grid.Length1 ==> (grid[i, j].None? <==> (i, j) in blocked)
      ensures outcome != Exhausted ==> var c := (current.x, current.y);
        && InRange(c) && c in old(openCells) && old(grid[c.0, c.1]) == Some(current)
        && c !in old(closedAt) && closedAt == old(closedAt)[c := old(steps)] && steps == old(steps) + 1
        && (outcome == ReachedGoal <==> c == (endX, endY))
      ensures outcome == ReachedGoal ==>
        openCells == old(openCells) - {(current.x, current.y)} && history == old(history)
      ensures forall i, j :: 0 <= i < grid.Length0 && 0 <= j < grid.Length1 ==>
        Settled(old(grid[i, j]), grid[i, j], (i, j) in old(closedAt), (i, j) in closedAt, (i, j) in old(openCells), (i, j) in openCells)
      ensures outcome != Continue ==> unchanged(grid)
      ensures outcome == Continue ==> forall i, j :: 0 <= i < grid.Length0 && 0 <= j < grid.Length1 ==>
        Evolved(old(grid[i, j]), grid[i, j], (i, j) in Targets(Examined(current.x, current.y, grid.Length0, grid.Length1)),
                (i, j) in closedAt, (i, j) in old(openCells) - {(current.x, current.y)}, (i, j) in openCells,
                (current.x, current.y), RelaxedKey(current, (i, j)))
      ensures KeptSince(cells0, closed0, open0)
    {
      outcome, current := Step(seed, blocked);
      forall i, j | 0 <= i < grid.Length0 && 0 <= j < grid.Length1
        ensures (i, j) in cells0 && Settled(cells0[(i, j)], grid[i, j], (i, j) in closed0, (i, j) in closedAt, (i, j) in open0, (i, j) in openCells)
      {
        SettledThen(cells0[(i, j)], old(grid[i, j]), grid[i, j], (i, j) in closed0, (i, j) in old(closedAt), (i, j) in closedAt,
                    (i, j) in open0, (i, j) in old(openCells), (i, j) in openCells);
      }
    }

    /**
     * The loop of the Java `process`, from a frontier seeded at `seed`:
     * repeatedly polls an open cell, closes it, stops if it is the cell of
     * slot (endX, endY), and otherwise relaxes its examined neighbours.
     * Either the goal is closed, as the last cell closed, or the frontier ran
     * dry and no walk of relaxation steps through present cells leads from
     * the seed to the goal. At most width * height cells are closed.
     * Measured from any earlier state `cells0`, `closed0`, `open0` that the
     * slots have only `Settled` away from so far (the state at entry, by
     * `KeptSinceNow`), they still have: a cell closed then keeps its cell, a
     * cell open then is still present, with a key no larger, and is open or
     * closed.
     */
    method Search(seed: Coord, ghost blocked: set<Coord>, ghost cells0: map<Coord, Option<Cell>>,
                  ghost closed0: set<Coord>, ghost open0: set<Coord>)
      requires Searching(seed, blocked) && InRange((endX, endY)) && (endX, endY) !in closedAt
      requires KeptSince(cells0, closed0, open0)
      modifies this`openCells, this`closedAt, this`steps, this`history, grid, closedCells
      ensures Valid() && root == Some(seed)
      ensures forall i, j :: 0 <= i < grid.Length0 && 0 <= j < grid.Length1 ==> (grid[i, j].None? <==> (i, j) in blocked)
      ensures |closedAt| <= grid.Length0 * grid.Length1
      ensures closedCells[endX, endY] ==> (endX, endY) in closedAt && closedAt[(endX, endY)] == steps - 1
      ensures !closedCells[endX, endY] ==>
        && openCells == {}
        && forall w :: IsWalk(w, Present()) && w[0] == seed ==> w[|w| - 1] != (endX, endY)
      ensures KeptSince(cells0, closed0, open0)
    {
      ghost var cap := grid.Length0 * grid.Length1;
      ClosedFitGrid();

      while true
        invariant Searching(seed, blocked) && (endX, endY) !in closedAt && |closedAt| <= cap
        invariant KeptSince(cells0, closed0, open0)
        decreases cap - |closedAt|
      {
        var outcome, current := SettledStep(seed, blocked, cells0, closed0, open0);
        ClosedFitGrid();
        if outcome == Exhausted {
          break;
        } else if outcome == ReachedGoal {
          return;
        }
      }
      assert seed in closedAt;
      ExhaustedUnreachable(blocked, seed, (endX, endY));
    }

    /**
     * The Java `process`: seeds the frontier with slot (startX, startY)
     * and runs the search loop; see `Search` for the outcome. Blocked slots
     * stay blocked and every cell keeps its coordinates and heuristic.
     */
    method Process()
      requires Valid() && Unsearched()
      requires InRange((startX, startY)) && grid[startX, startY].Some?
      requires InRange((endX, endY))
      modifies this`openCells, this`closedAt, this`steps, this`root, this`history, grid, closedCells
      ensures Valid() && root == Some((startX, startY))
      ensures forall i, j :: 0 <= i < grid.Length0 && 0 <= j < grid.Length1 ==> SameShape(old(grid[i, j]), grid[i, j])
      ensures |closedAt| <= grid.Length0 * grid.Length1
      ensures closedCells[endX, endY] ==> (endX, endY) in closedAt && closedAt[(endX, endY)] == steps - 1
      ensures !closedCells[endX, endY] ==>
        && openCells == {}
        && forall w :: IsWalk(w, Present()) && w[0] == (startX, startY) ==> w[|w| - 1] != (endX, endY)
    {
      OpenStart();
      SearchFrom((startX, startY));
    }

    /** `Search` from the current state, which every slot keeps the shape of. */
    method SearchFrom(seed: Coord)
      requires Searching(seed, Blocked()) && InRange((endX, endY)) && (endX, endY) !in closedAt
      modifies this`openCells, this`closedAt, this`steps, this`history, grid, closedCells
      ensures Valid() && root == Some(seed)
      ensures forall i, j :: 0 <= i < grid.Length0 && 0 <= j < grid.Length1 ==> SameShape(old(grid[i, j]), grid[i, j])
      ensures |closedAt| <= grid.Length0 * grid.Length1
      ensures closedCells[endX, endY] ==> (endX, endY) in closedAt && closedAt[(endX, endY)] == steps - 1
      ensures !closedCells[endX, endY] ==>
        && openCells == {}
        && forall w :: IsWalk(w, Present()) && w[0] == seed ==> w[|w| - 1] != (endX, endY)
    {
      KeptSinceNow();
      ghost var cells := Cells();
      Search(seed, Blocked(), cells, closedAt.Keys, openCells);
      KeptShapes(cells, old(closedAt).Keys, old(openCells));
    }

    /** Parent links of closed cells go to cells closed earlier, so they can be followed to the end. */
    lemma ParentsRanked()
      requires Valid()
      ensures Ranked(ParentMap(), closedAt) && ParentsInGrid(ParentMap(), closedAt)
    {
      var parents := ParentMap();
      assert CellsInPlace() && ClosedAgree();
      forall c | c in parents && c in closedAt ensures parents[c] in closedAt && closedAt[parents[c]] < closedAt[c] {
        assert SlotLinked(c.0, c.1);
      }
    }

    /**
     * The path traced back from a closed cell: empty exactly when that cell
     * has no parent; otherwise it starts at the cell's parent, each entry is
     * the parent of the one before and a neighbour it was relaxed from, no
     * cell repeats, and it ends at the root of the search.
     */
    lemma CalculatedPathShape(goal: Coord)
      requires Valid() && goal in closedAt && InRange(goal) && grid[goal.0, goal.1].Some?
      ensures Ranked(ParentMap(), closedAt)
      ensures var r := Chain(ParentMap(), closedAt, goal);
        && (r == [] <==> grid[goal.0, goal.1].value.parent.None?)
        && (r != [] ==> grid[goal.0, goal.1].value.parent == Some(r[0]) && Relaxes(r[0], goal) && root == Some(r[|r| - 1]))
        && (forall k :: 0 <= k < |r| - 1 ==> Relaxes(r[k + 1], r[k]))
        && (forall k :: 0 <= k < |r| ==> r[k] in closedAt)
        && NoRepeats(r) && goal !in r
    {
      ParentsRanked();
      var parents := ParentMap();
      var r := Chain(parents, closedAt, goal);
      ChainLinks(parents, closedAt, goal);
      ChainDescends(parents, closedAt, goal);
      NoRepeatsPairwise(r);
      assert SlotLinked(goal.0, goal.1);
      forall k | 0 <= k < |r| - 1 ensures Relaxes(r[k + 1], r[k]) {
        assert r[k] in parents && r[k] in closedAt;
        assert SlotLinked(r[k].0, r[k].1);
      }
      if r != [] {
        var last := r[|r| - 1];
        assert last in closedAt && last !in parents;
        assert Rooted();
      }
    }

    /** Setting solution flags changes nothing the invariant speaks about. */
    twostate lemma MarkingKeepsValid()
      requires old(Valid())
      requires unchanged(this) && unchanged(closedCells)
      requires forall i, j :: 0 <= i < grid.Length0 && 0 <= j < grid.Length1 ==>
        grid[i, j] == old(grid[i, j]) || grid[i, j] == Marked(old(grid[i, j]))
      ensures Valid()
    {
      forall i, j | 0 <= i < grid.Length0 && 0 <= j < grid.Length1 ensures SlotLinked(i, j) {
        assert old(SlotLinked(i, j));
        if grid[i, j].Some? && grid[i, j].value.parent.Some? {
          var p := grid[i, j].value.parent.value;
          assert InRange(p) ==> grid[p.0, p.1] == old(grid[p.0, p.1]) || grid[p.0, p.1] == Marked(old(grid[p.0, p.1]));
        }
      }
      assert CellsInPlace() && ClosedAgree() && Rooted() && Frontier(openCells);
    }

    /** The parent links that `parents` records for the cells ranked by `rank` are the ones in the grid. */
    ghost predicate ParentsInGrid(parents: map<Coord, Coord>, rank: map<Coord, nat>)
      reads grid
    {
      forall c :: c in rank ==>
        && InRange(c) && grid[c.0, c.1].Some?
        && grid[c.0, c.1].value.x == c.0 && grid[c.0, c.1].value.y == c.1
        && grid[c.0, c.1].value.parent == (if c in parents then Some(parents[c]) else None)
    }

    /**
     * The loop of the Java `getCalculatedPath`: from the cell `from`,
     * appends the coordinates of each parent in turn and marks that parent
     * as part of the solution, until a cell without a parent is reached.
     */
    method TraceBack(from: Cell, ghost parents: map<Coord, Coord>, ghost rank: map<Coord, nat>) returns (path: seq<Coord>)
      requires Ranked(parents, rank) && ParentsInGrid(parents, rank)
      requires (from.x, from.y) in rank && from.parent == (if (from.x, from.y) in parents then Some(parents[(from.x, from.y)]) else None)
      modifies grid
      ensures path == Chain(parents, rank, (from.x, from.y))
      ensures forall i, j :: 0 <= i < grid.Length0 && 0 <= j < grid.Length1 ==>
        grid[i, j] == if (i, j) in path then Marked(old(grid[i, j])) else old(grid[i, j])
    {
      path := [];
      var current := from;
      while current.parent.Some?
        invariant (current.x, current.y) in rank
        invariant current.parent == (if (current.x, current.y) in parents then Some(parents[(current.x, current.y)]) else None)
        invariant path + Chain(parents, rank, (current.x, current.y)) == Chain(parents, rank, (from.x, from.y))
        invariant forall i, j :: 0 <= i < grid.Length0 && 0 <= j < grid.Length1 ==>
          grid[i, j] == if (i, j) in path then Marked(old(grid[i, j])) else old(grid[i, j])
        decreases rank[(current.x, current.y)]
      {
        ghost var c := (current.x, current.y);
        var p := current.parent.value;
        assert Chain(parents, rank, c) == [p] + Chain(parents, rank, p);
        assert old(ParentsInGrid(parents, rank)) && p in rank;
        ghost var before := old(grid[p.0, p.1]);
        path := path + [p];
        assert grid[p.0, p.1] == before || grid[p.0, p.1] == Marked(before);
        grid[p.0, p.1] := Marked(grid[p.0, p.1]);
        current := grid[p.0, p.1].value;
        assert current == before.value.(solution := true);
      }
    }

    /**
     * The branch of the Java `getCalculatedPath` taken when the goal slot
     * is closed: marks the goal cell as part of the solution, then traces
     * its parents back.
     */
    method MarkSolution(ghost parents: map<Coord, Coord>) returns (path: seq<Coord>)
      requires Ranked(parents, closedAt) && ParentsInGrid(parents, closedAt) && (endX, endY) in closedAt
      modifies grid
      ensures path == Chain(parents, closedAt, (endX, endY))
      ensures forall i, j :: 0 <= i < grid.Length0 && 0 <= j < grid.Length1 ==>
        grid[i, j] == if (i, j) == (endX, endY) || (i, j) in path then Marked(old(grid[i, j])) else old(grid[i, j])
    {
      var current := grid[endX, endY].value;
      grid[current.x, current.y] := Marked(grid[current.x, current.y]);
      current := grid[current.x, current.y].value;
      assert ParentsInGrid(parents, closedAt) by {
        forall c | c in closedAt
          ensures grid[c.0, c.1] == old(grid[c.0, c.1]) || grid[c.0, c.1] == Marked(old(grid[c.0, c.1]))
        {
        }
      }
      path := TraceBack(current, parents, closedAt);
    }

    /**
     * The Java `getCalculatedPath`: when the cell of slot (endX, endY) is
     * closed, marks it as part of the solution and traces its parents back;
     * otherwise returns the empty path and changes nothing.
     */
    method GetCalculatedPath() returns (path: seq<Coord>)
      requires Valid() && InRange((endX, endY))
      modifies grid
      ensures Valid()
      ensures !closedCells[endX, endY] ==>
        path == [] && forall i, j :: 0 <= i < grid.Length0 && 0 <= j < grid.Length1 ==> grid[i, j] == old(grid[i, j])
      ensures closedCells[endX, endY] ==>
        && (endX, endY) in closedAt && Ranked(old(ParentMap()), closedAt)
        && path == Chain(old(ParentMap()), closedAt, (endX, endY))
        && forall i, j :: 0 <= i < grid.Length0 && 0 <= j < grid.Length1 ==>
             grid[i, j] == if (i, j) == (endX, endY) || (i, j) in path then Marked(old(grid[i, j])) else old(grid[i, j])
    {
      path := [];
      if closedCells[endX, endY] {
        ParentsRanked();
        path := MarkSolution(ParentMap());
      }
      MarkingKeepsValid();
    }

  }

}