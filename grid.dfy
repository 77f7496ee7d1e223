/**
  The geometry of a rectangular maze: positions (row, col), the four
  compass directions used to index a cell's wall list, stepping from a
  cell to its neighbour, and the fact that a set of cells that is closed
  under stepping to neighbours covers the whole grid.
*/
module Grid {

  /** Wall indices of a cell, as the class constants of `Cell`. */
  const EAST: int := 0
  const SOUTH: int := 1
  const WEST: int := 2
  const NORTH: int := 3

  predicate IsDirection(d: int) { 0 <= d < 4 }

  /** A grid position; `row` grows southwards, `col` grows eastwards. */
  datatype Pos = Pos(row: int, col: int)

  /** The position one cell away from `p` in direction `d`. */
  function Step(p: Pos, d: int): Pos
    requires IsDirection(d)
  {
    if d == EAST then Pos(p.row, p.col + 1)
    else if d == SOUTH then Pos(p.row + 1, p.col)
    else if d == WEST then Pos(p.row, p.col - 1)
    else Pos(p.row - 1, p.col)
  }

  /** The direction facing back: EAST/WEST and SOUTH/NORTH are opposites. */
  function Opposite(d: int): (o: int)
    requires IsDirection(d)
    ensures IsDirection(o) && o != d
    ensures forall p :: Step(Step(p, d), o) == p
  {
    (d + 2) % 4
  }

  /** `p` and `q` share an edge: they differ by exactly 1 in exactly one coordinate. */
  predicate Adjacent(p: Pos, q: Pos) {
    (p.row == q.row && (p.col - q.col == 1 || q.col - p.col == 1)) ||
    (p.col == q.col && (p.row - q.row == 1 || q.row - p.row == 1))
  }

  predicate InBounds(p: Pos, width: int, height: int) {
    0 <= p.row < height && 0 <= p.col < width
  }

  /**
    The side of `p` that faces `q`, decided as the carving step decides it:
    first on equal columns (then north or south), otherwise west or east.
  */
  function Toward(p: Pos, q: Pos): (d: int)
    ensures IsDirection(d)
    ensures Adjacent(p, q) ==> Step(p, d) == q
  {
    if q.col == p.col then (if q.row < p.row then NORTH else SOUTH)
    else if q.col < p.col then WEST else EAST
  }

  /** Stepping is injective in the direction, so `Toward` is the only side of `p` facing `q`. */
  lemma StepToward(p: Pos, q: Pos, d: int)
    requires Adjacent(p, q) && IsDirection(d)
    ensures Step(p, d) == q <==> d == Toward(p, q)
    ensures Toward(q, p) == Opposite(Toward(p, q))
  {
  }

  /** Every step lands on an adjacent position. */
  lemma StepAdjacent(p: Pos, d: int)
    requires IsDirection(d)
    ensures Adjacent(p, Step(p, d)) && Toward(p, Step(p, d)) == d
  {
  }

  /**
    Position order of the neighbour sweep: west, east, north, south
    (column neighbours before row neighbours).
  */
  function SweepRank(p: Pos, q: Pos): int {
    if q.col < p.col then 0
    else if q.col > p.col then 1
    else if q.row < p.row then 2
    else 3
  }

  /** The cells `Pos(row, 0)` .. `Pos(row, width - 1)`. */
  function RowPositions(row: int, width: nat): (ps: set<Pos>)
    ensures forall p :: p in ps <==> p.row == row && 0 <= p.col < width
    ensures |ps| == width
  {
    if width == 0 then {}
    else
      var rest := RowPositions(row, width - 1);
      assert Pos(row, width - 1) !in rest;
      rest + {Pos(row, width - 1)}
  }

  /** All cells of a `width` x `height` grid. */
  function Positions(width: int, height: int): (ps: set<Pos>)
    ensures forall p :: p in ps <==> InBounds(p, width, height)
  {
    set r, c | 0 <= r < height && 0 <= c < width :: Pos(r, c)
  }

  /** A `width` x `height` grid has `width * height` cells. */
  lemma {:induction false} PositionsCount(width: nat, height: nat)
    ensures |Positions(width, height)| == width * height
  {
    if height > 0 {
      var above := Positions(width, height - 1);
      var last := RowPositions(height - 1, width);
      PositionsCount(width, height - 1);
      assert Positions(width, height) == above + last;
      assert above * last == {};
      assert width * height == width * (height - 1) + width;
    } else {
      assert Positions(width, height) == {};
    }
  }

  /** Every in-bounds neighbour of `p` belongs to `vis`. */
  ghost predicate ClosedAt(vis: set<Pos>, p: Pos, width: int, height: int) {
    forall d {:trigger Step(p, d) in vis} :: IsDirection(d) && InBounds(Step(p, d), width, height) ==> Step(p, d) in vis
  }

  ghost predicate Closed(vis: set<Pos>, width: int, height: int) {
    forall p :: p in vis ==> ClosedAt(vis, p, width, height)
  }

  /** Along a row, a closed set reaches every column from any of its members. */
  lemma {:induction false} WalkRow(vis: set<Pos>, p: Pos, col: int, width: int, height: int)
    requires Closed(vis, width, height)
    requires p in vis && InBounds(p, width, height) && 0 <= col < width
    ensures Pos(p.row, col) in vis
    decreases if col < p.col then p.col - col else col - p.col
  {
    if col > p.col {
      WalkRow(vis, p, col - 1, width, height);
      assert Step(Pos(p.row, col - 1), EAST) == Pos(p.row, col);
    } else if col < p.col {
      WalkRow(vis, p, col + 1, width, height);
      assert Step(Pos(p.row, col + 1), WEST) == Pos(p.row, col);
    }
  }

  /** Along a column, a closed set reaches every row from any of its members. */
  lemma {:induction false} WalkColumn(vis: set<Pos>, p: Pos, row: int, width: int, height: int)
    requires Closed(vis, width, height)
    requires p in vis && InBounds(p, width, height) && 0 <= row < height
    ensures Pos(row, p.col) in vis
    decreases if row < p.row then p.row - row else row - p.row
  {
    if row > p.row {
      WalkColumn(vis, p, row - 1, width, height);
      assert Step(Pos(row - 1, p.col), SOUTH) == Pos(row, p.col);
    } else if row < p.row {
      WalkColumn(vis, p, row + 1, width, height);
      assert Step(Pos(row + 1, p.col), NORTH) == Pos(row, p.col);
    }
  }

  /**
    The grid is connected: a set of cells that holds one cell and, with
    every cell, all of its in-bounds neighbours, holds every cell.
  */
  lemma {:induction false} ClosedSetCoversGrid(vis: set<Pos>, s: Pos, width: int, height: int)
    requires Closed(vis, width, height)
    requires s in vis && InBounds(s, width, height)
    ensures forall p :: InBounds(p, width, height) ==> p in vis
  {
    forall p | InBounds(p, width, height) ensures p in vis {
      WalkRow(vis, s, p.col, width, height);
      WalkColumn(vis, Pos(s.row, p.col), p.row, width, height);
    }
  }
}
