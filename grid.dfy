/**
 * The value-level vocabulary of the grid A* engine: coordinates, cells,
 * step costs, and the list of neighbours that one expansion relaxes.
 */
module GridModel {
  import opened Wrappers

  /** Step cost of a diagonal move. */
  const DiagonalCost := 14
  /** Step cost of a vertical or horizontal move. */
  const StraightCost := 10

  /** A grid position (first index, second index) of the grid array. */
  type Coord = (int, int)

  /**
   * One cell of the grid. `parent` refers back to the predecessor cell by its
   * coordinates; `finalCost` is the priority key of the frontier.
   */
  datatype Cell = Cell(x: int, y: int, heuristicCost: int, finalCost: int, parent: Option<Coord>, solution: bool)

  function Abs(n: int): nat {
    if n < 0 then -n else n
  }

  predicate InGrid(x: int, y: int, width: int, height: int) {
    0 <= x < width && 0 <= y < height
  }

  /**
   * The offsets an expansion of `from` can reach `to` by: the eight cells
   * around it, except the one at (+1, +1), which the search never examines.
   */
  predicate Relaxes(from: Coord, to: Coord) {
    var dx, dy := to.0 - from.0, to.1 - from.1;
    -1 <= dx <= 1 && -1 <= dy <= 1 && (dx, dy) != (0, 0) && (dx, dy) != (1, 1)
  }

  /** The cost of one move: straight when one coordinate is kept, diagonal otherwise. */
  function StepCost(from: Coord, to: Coord): int {
    if from.0 == to.0 || from.1 == to.1 then StraightCost else DiagonalCost
  }

  /** A neighbour to relax: its coordinates and the step cost added to the current cell's cost. */
  datatype Neighbour = Neighbour(x: int, y: int, step: int)

  /**
   * The i-th of the eight guarded `updateCostIfNeeded` calls one expansion of
   * the cell at (x, y) makes in `process` of AStar.java, in their order there,
   * behind its own bounds tests; None when the test fails. The last test, `y + 1 > height`,
   * can never hold, so (x + 1, y + 1) is never offered.
   */
  function Candidate(i: int, x: int, y: int, width: int, height: int): (c: Option<Neighbour>)
    requires InGrid(x, y, width, height)
    ensures c.Some? ==> InGrid(c.value.x, c.value.y, width, height) && Relaxes((x, y), (c.value.x, c.value.y))
                        && c.value.step == StepCost((x, y), (c.value.x, c.value.y))
  {
    if i == 0 then (if x - 1 >= 0 then Some(Neighbour(x - 1, y, StraightCost)) else None)
    else if i == 1 then (if x - 1 >= 0 && y - 1 >= 0 then Some(Neighbour(x - 1, y - 1, DiagonalCost)) else None)
    else if i == 2 then (if x - 1 >= 0 && y + 1 < height then Some(Neighbour(x - 1, y + 1, DiagonalCost)) else None)
    else if i == 3 then (if y - 1 >= 0 then Some(Neighbour(x, y - 1, StraightCost)) else None)
    else if i == 4 then (if y + 1 < height then Some(Neighbour(x, y + 1, StraightCost)) else None)
    else if i == 5 then (if x + 1 < width then Some(Neighbour(x + 1, y, StraightCost)) else None)
    else if i == 6 then (if x + 1 < width && y - 1 >= 0 then Some(Neighbour(x + 1, y - 1, DiagonalCost)) else None)
    else if i == 7 then (if x + 1 < width && y + 1 > height then Some(Neighbour(x + 1, y + 1, DiagonalCost)) else None)
    else None
  }

  /** The calls from the i-th on whose tests pass, in order. */
  function ExaminedFrom(i: nat, x: int, y: int, width: int, height: int): (ns: seq<Neighbour>)
    requires i <= 8 && InGrid(x, y, width, height)
    ensures forall m :: m in ns ==>
      InGrid(m.x, m.y, width, height) && Relaxes((x, y), (m.x, m.y)) && m.step == StepCost((x, y), (m.x, m.y))
    ensures |ns| <= 8 - i
    decreases 8 - i
  {
    if i == 8 then []
    else
      var c := Candidate(i, x, y, width, height);
      (if c.Some? then [c.value] else []) + ExaminedFrom(i + 1, x, y, width, height)
  }

  /**
   * The neighbours one expansion of the cell at (x, y) relaxes, with their
   * step costs: all in the grid, one relaxation step away, at most eight.
   */
  function Examined(x: int, y: int, width: int, height: int): (ns: seq<Neighbour>)
    requires InGrid(x, y, width, height)
    ensures forall m :: m in ns ==>
      InGrid(m.x, m.y, width, height) && Relaxes((x, y), (m.x, m.y)) && m.step == StepCost((x, y), (m.x, m.y))
    ensures |ns| <= 8
  {
    ExaminedFrom(0, x, y, width, height)
  }

  /** The coordinates of the neighbours in `ns`. */
  function Targets(ns: seq<Neighbour>): set<Coord> {
    set m | m in ns :: (m.x, m.y)
  }

  /** One more neighbour adds its coordinates. */
  lemma TargetsSnoc(ns: seq<Neighbour>, k: nat)
    requires k < |ns|
    ensures Targets(ns[..k + 1]) == Targets(ns[..k]) + {(ns[k].x, ns[k].y)}
  {
    assert ns[..k + 1] == ns[..k] + [ns[k]];
  }

  /** A call whose test passes is listed by every suffix that starts at or before it. */
  lemma {:induction false} CandidateListed(i: nat, j: int, x: int, y: int, width: int, height: int)
    requires i <= j < 8 && InGrid(x, y, width, height)
    requires Candidate(j, x, y, width, height).Some?
    ensures Candidate(j, x, y, width, height).value in ExaminedFrom(i, x, y, width, height)
    decreases 8 - i
  {
    if i < j {
      CandidateListed(i + 1, j, x, y, width, height);
    }
  }

  /**
   * Every in-grid cell reachable by one of the seven offsets is examined, with
   * its step cost; together with the ensures of Examined this says the list is
   * exactly the in-grid seven-neighbourhood.
   */
  lemma ExaminedComplete(x: int, y: int, width: int, height: int, to: Coord)
    requires InGrid(x, y, width, height)
    requires InGrid(to.0, to.1, width, height) && Relaxes((x, y), to)
    ensures Neighbour(to.0, to.1, StepCost((x, y), to)) in Examined(x, y, width, height)
  {
    var n := Neighbour(to.0, to.1, StepCost((x, y), to));
    var j := if to.0 < x then (if to.1 == y then 0 else if to.1 < y then 1 else 2)
             else if to.0 == x then (if to.1 < y then 3 else 4)
             else (if to.1 == y then 5 else 6);
    assert Candidate(j, x, y, width, height) == Some(n);
    CandidateListed(0, j, x, y, width, height);
  }

  /** The coordinates (i, 0) .. (i, height - 1) of one column. */
  ghost function Column(i: int, height: nat): set<Coord> {
    set j | 0 <= j < height :: (i, j)
  }

  /** All coordinates of a width-by-height grid, column by column. */
  ghost function AllCoords(width: nat, height: nat): set<Coord> {
    if width == 0 then {} else AllCoords(width - 1, height) + Column(width - 1, height)
  }

  lemma {:induction false} AllCoordsMembers(width: nat, height: nat, c: Coord)
    ensures c in AllCoords(width, height) <==> InGrid(c.0, c.1, width, height)
  {
    if width > 0 {
      AllCoordsMembers(width - 1, height, c);
      assert c in Column(width - 1, height) <==> c.0 == width - 1 && 0 <= c.1 < height;
    }
  }

  lemma {:induction false} ColumnCard(i: int, height: nat)
    ensures |Column(i, height)| == height
  {
    if height > 0 {
      ColumnCard(i, height - 1);
      assert Column(i, height) == Column(i, height - 1) + {(i, height - 1)};
    } else {
      assert Column(i, height) == {};
    }
  }

  /** The last column is not among the columns before it. */
  lemma ColumnIsNew(width: nat, height: nat)
    requires width > 0
    ensures AllCoords(width - 1, height) !! Column(width - 1, height)
  {
    var rest, col := AllCoords(width - 1, height), Column(width - 1, height);
    forall c | c in rest ensures c !in col {
      AllCoordsMembers(width - 1, height, c);
    }
  }

  /** A width-by-height grid has width * height coordinates. */
  lemma {:induction false} AllCoordsCard(width: nat, height: nat)
    ensures |AllCoords(width, height)| == width * height
  {
    if width > 0 {
      var rest, col := AllCoords(width - 1, height), Column(width - 1, height);
      AllCoordsCard(width - 1, height);
      ColumnCard(width - 1, height);
      ColumnIsNew(width, height);
      assert |rest + col| == |rest| + |col|;
      assert (width - 1) * height + height == width * height;
    }
  }

  lemma SubsetCard<T>(a: set<T>, b: set<T>)
    requires a <= b
    ensures |a| <= |b|
  {
    assert b == a + (b - a);
  }
}
