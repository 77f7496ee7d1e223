/**
  The maze model: a grid of cells, each with four wall flags and a visited
  mark, and the iterative randomized depth-first ("recursive backtracker")
  generator that carves a maze into it.
*/
module MazeGen {
  import opened Wrappers
  import opened Grid
  import opened Carving
  import opened Views

  /** One grid cell; its walls are indexed EAST, SOUTH, WEST, NORTH. */
  class Cell {
    const row: int
    const col: int
    var walls: seq<bool>
    var visited: bool

    /** A new cell has every wall closed and is not visited. */
    constructor (row: int, col: int)
      ensures this.row == row && this.col == col
      ensures walls == [true, true, true, true] && !visited
    {
      this.row := row;
      this.col := col;
      walls := [true, true, true, true];
      visited := false;
    }

    function Loc(): Pos { Pos(row, col) }
  }

  /** The number of elements of Python's `range(n)`. */
  function Dim(n: int): nat { if n < 0 then 0 else n }

  /**
    The element a Python list of length `n` yields for index `i`: negative
    indices count from the end, anything else out of range raises IndexError (None).
  */
  function ListIndex(i: int, n: int): (r: Option<int>)
    ensures r.Some? <==> -n <= i < n
    ensures r.Some? ==> 0 <= r.value < n && (r.value == i || r.value == i + n)
  {
    if 0 <= i < n then Some(i) else if -n <= i < 0 then Some(i + n) else None
  }

  /** The cells of `ns` that are not visited, in order. */
  function Unvisited(ns: seq<Cell>): (us: seq<Cell>)
    reads ns
    ensures forall i :: 0 <= i < |us| ==> us[i] in ns && !us[i].visited
    ensures forall i :: 0 <= i < |ns| && !ns[i].visited ==> ns[i] in us
    ensures |us| <= |ns|
  {
    if ns == [] then [] else (if ns[0].visited then [] else [ns[0]]) + Unvisited(ns[1..])
  }

  /** Every cell `Unvisited` keeps lies beyond `b` in sweep order around `c` when every cell of `ns` does. */
  lemma UnvisitedAbove(ns: seq<Cell>, c: Pos, b: int)
    requires forall k :: 0 <= k < |ns| ==> b < SweepRank(c, ns[k].Loc())
    ensures forall i :: 0 <= i < |Unvisited(ns)| ==> b < SweepRank(c, Unvisited(ns)[i].Loc())
  {
  }

  /** A cell placed before cells that all lie beyond it keeps a sorted sequence sorted. */
  lemma SortedCons(x: Cell, us: seq<Cell>, c: Pos)
    requires forall i, j :: 0 <= i < j < |us| ==> SweepRank(c, us[i].Loc()) < SweepRank(c, us[j].Loc())
    requires forall i :: 0 <= i < |us| ==> SweepRank(c, x.Loc()) < SweepRank(c, us[i].Loc())
    ensures var xs := [x] + us;
            forall i, j :: 0 <= i < j < |xs| ==> SweepRank(c, xs[i].Loc()) < SweepRank(c, xs[j].Loc())
  {
  }

  /**
    `Unvisited` keeps the order of `ns`: when the cells of `ns` are in
    strictly increasing sweep order around `c`, so are the cells it keeps.
  */
  lemma {:induction false} UnvisitedSorted(ns: seq<Cell>, c: Pos)
    requires forall i, j :: 0 <= i < j < |ns| ==> SweepRank(c, ns[i].Loc()) < SweepRank(c, ns[j].Loc())
    ensures forall i, j :: 0 <= i < j < |Unvisited(ns)| ==>
              SweepRank(c, Unvisited(ns)[i].Loc()) < SweepRank(c, Unvisited(ns)[j].Loc())
  {
    if ns != [] {
      var tail := ns[1..];
      UnvisitedSorted(tail, c);
      if ns[0].visited {
        assert Unvisited(ns) == Unvisited(tail);
      } else {
        UnvisitedAbove(tail, c, SweepRank(c, ns[0].Loc()));
        SortedCons(ns[0], Unvisited(tail), c);
        assert Unvisited(ns) == [ns[0]] + Unvisited(tail);
      }
    }
  }

  /** The result of a generation run: the number of callback invocations, or Python's IndexError. */
  datatype Outcome = Finished(callbacks: nat) | IndexError

  class Maze {
    const width: int
    const height: int
    var cells: seq<seq<Cell>>
    ghost var Repr: set<Cell>

    /** `cells` is `height` rows of `width` cells, `cells[r][c]` being the cell at row r, column c. */
    ghost predicate Shape()
      reads this
    {
      |cells| == Dim(height) &&
      (forall r :: 0 <= r < |cells| ==> |cells[r]| == Dim(width)) &&
      forall r, c :: 0 <= r < |cells| && 0 <= c < |cells[r]| ==>
        cells[r][c] in Repr && cells[r][c].row == r && cells[r][c].col == c
    }

    ghost predicate Valid()
      reads this, Repr
    {
      Shape() &&
      forall p :: InGrid(p) ==> |At(p).walls| == 4
    }

    predicate InGrid(p: Pos) {
      InBounds(p, width, height)
    }

    /** The cell at position `p`. */
    function At(p: Pos): (cell: Cell)
      reads this
      requires Shape() && InGrid(p)
      ensures cell.Loc() == p && cell in Repr
    {
      cells[p.row][p.col]
    }

    /** The state of every cell, by position. */
    ghost function View(): (v: map<Pos, CellState>)
      reads this, Repr
      requires Shape()
      ensures forall p :: p in v <==> InGrid(p)
    {
      map p | p in Positions(width, height) :: CellState(At(p).walls, At(p).visited)
    }

    /**
      The cell that `cells[xy.1][xy.0]` denotes for a `(col, row)` pair, or
      None where Python raises IndexError.
    */
    function Resolve(xy: (int, int)): (p: Option<Pos>)
      ensures p.Some? <==> -height <= xy.1 < height && -width <= xy.0 < width
      ensures p.Some? ==> InGrid(p.value) &&
                          (p.value.row == xy.1 || p.value.row == xy.1 + height) &&
                          (p.value.col == xy.0 || p.value.col == xy.0 + width)
    {
      var r := ListIndex(xy.1, height);
      var c := ListIndex(xy.0, width);
      if r.Some? && c.Some? then Some(Pos(r.value, c.value)) else None
    }

    /** The finish pair used by a run: the one given, or `(width - 1, height - 1)`. */
    function FinishOr(finish: Option<(int, int)>): (xy: (int, int))
      ensures finish.Some? ==> xy == finish.value
      ensures finish.None? && width > 0 && height > 0 ==> Resolve(xy) == Some(Pos(height - 1, width - 1))
    {
      if finish.Some? then finish.value else (width - 1, height - 1)
    }

    /** A new maze of `height` rows and `width` columns, every wall closed. */
    constructor (width: int, height: int)
      ensures this.width == width && this.height == height
      ensures Valid() && fresh(Repr)
      ensures forall p :: p in View() ==> View()[p] == CellState([true, true, true, true], false)
    {
      this.width := width;
      this.height := height;
      cells := [];
      Repr := {};
      new;
      Initialize();
    }

    /** Replaces the grid with `height` rows of `width` new cells, every wall closed. */
    method Initialize()
      modifies this
      ensures Valid() && fresh(Repr)
      ensures forall p :: p in View() ==> View()[p] == CellState([true, true, true, true], false)
    {
      var rows: seq<seq<Cell>> := [];
      ghost var made: set<Cell> := {};
      var row := 0;
      while row < height
        invariant 0 <= row <= Dim(height) && |rows| == row
        invariant fresh(made)
        invariant forall r :: 0 <= r < row ==> |rows[r]| == Dim(width)
        invariant forall r, c :: 0 <= r < row && 0 <= c < |rows[r]| ==>
                    rows[r][c] in made && rows[r][c].row == r && rows[r][c].col == c &&
                    rows[r][c].walls == [true, true, true, true] && !rows[r][c].visited
      {
        var line: seq<Cell> := [];
        var col := 0;
        while col < width
          invariant 0 <= col <= Dim(width) && |line| == col
          invariant fresh(made)
          invariant forall r, c :: 0 <= r < row && 0 <= c < |rows[r]| ==>
                      rows[r][c] in made && rows[r][c].row == r && rows[r][c].col == c &&
                      rows[r][c].walls == [true, true, true, true] && !rows[r][c].visited
          invariant forall c :: 0 <= c < col ==>
                      line[c] in made && line[c].row == row && line[c].col == c &&
                      line[c].walls == [true, true, true, true] && !line[c].visited
        {
          var cell := new Cell(row, col);
          line := line + [cell];
          made := made + {cell};
          col := col + 1;
        }
        rows := rows + [line];
        row := row + 1;
      }
      cells := rows;
      Repr := made;
    }

    /** Clears every visited mark; walls are untouched. */
    method RemoveMarks()
      requires Valid()
      modifies Repr
      ensures Valid()
      ensures View() == ClearMarks(old(View()))
    {
      var r := 0;
      while r < |cells|
        invariant 0 <= r <= |cells| && Valid()
        invariant ClearedUpTo(old(View()), View(), r, 0)
      {
        var line := cells[r];
        var c := 0;
        while c < |line|
          invariant 0 <= c <= |line| == Dim(width) && Valid()
          invariant ClearedUpTo(old(View()), View(), r, c)
        {
          assert InGrid(Pos(r, c)) && line[c] == At(Pos(r, c));
          ClearedStep(old(View()), View(), r, c);
          Mark(line[c], false);
          c := c + 1;
        }
        r := r + 1;
      }
      ClearedAll(old(View()), View(), r);
    }

    /**
      The in-bounds orthogonal neighbours of `cell`, west, east, north,
      south, each at most once.
    */
    function Neighbours(cell: Cell): (ns: seq<Cell>)
      reads this
      requires Shape() && InGrid(cell.Loc())
      ensures |ns| <= 4
      ensures forall i :: 0 <= i < |ns| ==>
                InGrid(ns[i].Loc()) && ns[i] == At(ns[i].Loc()) && Adjacent(cell.Loc(), ns[i].Loc())
      ensures forall d {:trigger At(Step(cell.Loc(), d))} :: IsDirection(d) && InGrid(Step(cell.Loc(), d)) ==> At(Step(cell.Loc(), d)) in ns
      ensures forall i, j :: 0 <= i < j < |ns| ==> SweepRank(cell.Loc(), ns[i].Loc()) < SweepRank(cell.Loc(), ns[j].Loc())
    {
      var west := if cell.col > 0 then [At(Pos(cell.row, cell.col - 1))] else [];
      var east := if cell.col < width - 1 then [At(Pos(cell.row, cell.col + 1))] else [];
      var north := if cell.row > 0 then [At(Pos(cell.row - 1, cell.col))] else [];
      var south := if cell.row < height - 1 then [At(Pos(cell.row + 1, cell.col))] else [];
      west + east + north + south
    }

    /**
      The candidates `random.choice` draws from are the unvisited
      neighbours in west, east, north, south order, so each index names a
      fixed direction.
    */
    lemma CandidatesInOrder(cell: Cell)
      requires Shape() && InGrid(cell.Loc())
      ensures forall i, j :: 0 <= i < j < |Unvisited(Neighbours(cell))| ==>
                SweepRank(cell.Loc(), Unvisited(Neighbours(cell))[i].Loc()) <
                SweepRank(cell.Loc(), Unvisited(Neighbours(cell))[j].Loc())
    {
      UnvisitedSorted(Neighbours(cell), cell.Loc());
    }

    /** The unvisited neighbours of the cell at `p`: the candidates of a turn from `p`. */
    function Candidates(p: Pos): seq<Cell>
      reads this, Repr
      requires Shape() && InGrid(p)
    {
      Unvisited(Neighbours(At(p)))
    }

    /**
      The position of the candidate that `choose` draws on its `k`-th call
      for a turn from `p`. The last branch is never taken when `choose`
      keeps to its contract.
    */
    ghost function Drawn(p: Pos, k: nat, choose: (nat, nat) -> nat): (q: Pos)
      reads this, Repr
      requires Shape() && InGrid(p)
      ensures InGrid(q)
    {
      var cs := Candidates(p);
      if cs != [] && choose(k, |cs|) < |cs| then
        assert cs[choose(k, |cs|)] in Neighbours(At(p));
        cs[choose(k, |cs|)].Loc()
      else p
    }

    /** Opens side `d` of a cell of the grid (`cell.walls[d] = False`). */
    method OpenWall(cell: Cell, d: int)
      requires Valid() && InGrid(cell.Loc()) && cell == At(cell.Loc()) && IsDirection(d)
      modifies cell
      ensures Valid()
      ensures cell.walls == old(cell.walls)[d := false]
      ensures var p := cell.Loc();
              View() == old(View())[p := old(View())[p].(walls := old(View())[p].walls[d := false])]
    {
      cell.walls := cell.walls[d := false];
    }

    /** Sets the visited mark of a cell of the grid to `mark`. */
    method Mark(cell: Cell, mark: bool)
      requires Valid() && InGrid(cell.Loc()) && cell == At(cell.Loc())
      modifies cell
      ensures Valid()
      ensures View() == old(View())[cell.Loc() := old(View())[cell.Loc()].(visited := mark)]
    {
      cell.visited := mark;
    }

    /**
      Marks `sel` visited and removes the wall pair between `cur` and its
      neighbour `sel`: the side of each that faces the other.
    */
    method Carve(cur: Cell, sel: Cell)
      requires Valid() && Adjacent(cur.Loc(), sel.Loc())
      requires InGrid(cur.Loc()) && cur == At(cur.Loc()) && InGrid(sel.Loc()) && sel == At(sel.Loc())
      modifies cur, sel
      ensures Valid()
      ensures View() == CarveView(old(View()), cur.Loc(), sel.Loc())
    {
      ghost var v0 := View();
      Mark(sel, true);
      ghost var v1 := View();
      var selSide, curSide;
      if sel.col == cur.col {
        if sel.row < cur.row {
          selSide, curSide := SOUTH, NORTH;
        } else {
          selSide, curSide := NORTH, SOUTH;
        }
      } else {
        if sel.col < cur.col {
          selSide, curSide := EAST, WEST;
        } else {
          selSide, curSide := WEST, EAST;
        }
      }
      assert selSide == Toward(sel.Loc(), cur.Loc()) && curSide == Toward(cur.Loc(), sel.Loc());
      OpenWall(sel, selSide);
      ghost var v2 := View();
      OpenWall(cur, curSide);
      CarveUpdates(v0, v1, v2, View(), cur.Loc(), sel.Loc(), curSide, selSide);
    }

    /**
      The carving step of a run: from the tree cell `cur` into its unvisited
      neighbour `sel`, which joins the tree under `cur` with the next rank.
    */
    method Advance(cur: Cell, sel: Cell, ghost v0: map<Pos, CellState>, ghost openings: set<(Pos, int)>,
                   ghost root: Pos, ghost parent: map<Pos, Pos>, ghost rank: map<Pos, nat>)
      returns (ghost parent': map<Pos, Pos>, ghost rank': map<Pos, nat>)
      requires Valid() && Run(v0, View(), openings, root, parent, rank)
      requires InGrid(cur.Loc()) && cur == At(cur.Loc()) && cur.Loc() in rank
      requires InGrid(sel.Loc()) && sel == At(sel.Loc()) && !sel.visited && Adjacent(cur.Loc(), sel.Loc())
      modifies cur, sel
      ensures Valid() && Run(v0, View(), openings, root, parent', rank')
      ensures parent' == parent[sel.Loc() := cur.Loc()] && rank' == rank[sel.Loc() := |parent| + 1]
      ensures View() == CarveView(old(View()), cur.Loc(), sel.Loc())
      ensures sel.Loc() in v0 && !v0[sel.Loc()].visited && sel.Loc() !in rank
    {
      ghost var v := View();
      assert !v[sel.Loc()].visited;
      Carve(cur, sel);
      RunExtend(v0, v, openings, root, parent, rank, cur.Loc(), sel.Loc());
      parent', rank' := parent[sel.Loc() := cur.Loc()], rank[sel.Loc() := |parent| + 1];
    }

    /** A cell without unvisited neighbours has all of its neighbours marked, by the run or before it. */
    lemma Exhausted(cur: Cell, v0: map<Pos, CellState>, openings: set<(Pos, int)>,
                    root: Pos, parent: map<Pos, Pos>, rank: map<Pos, nat>)
      requires Valid() && Run(v0, View(), openings, root, parent, rank)
      requires InGrid(cur.Loc()) && cur == At(cur.Loc())
      requires Unvisited(Neighbours(cur)) == []
      ensures ClosedAt(Marks(v0) + rank.Keys, cur.Loc(), width, height)
    {
      var c := cur.Loc();
      forall d | IsDirection(d) && InGrid(Step(c, d)) ensures Step(c, d) in Marks(v0) + rank.Keys {
        assert At(Step(c, d)) in Neighbours(cur);
      }
    }

    /** A cell picked among the unvisited neighbours of `cur` is an unvisited grid cell next to `cur`. */
    lemma Picked(cur: Cell, j: int)
      requires Shape() && InGrid(cur.Loc()) && 0 <= j < |Unvisited(Neighbours(cur))|
      ensures var sel := Unvisited(Neighbours(cur))[j];
              InGrid(sel.Loc()) && sel == At(sel.Loc()) && sel in Repr && !sel.visited && Adjacent(cur.Loc(), sel.Loc())
    {
      var sel := Unvisited(Neighbours(cur))[j];
      assert sel in Neighbours(cur);
    }

    /**
      `random.choice` over the unvisited neighbours of `cur`, drawing the
      index with the `steps`-th call of `choose`.
    */
    function Choice(cur: Cell, steps: nat, choose: (nat, nat) -> nat): (sel: Cell)
      reads this, Repr
      requires Shape() && InGrid(cur.Loc()) && cur == At(cur.Loc()) && |Unvisited(Neighbours(cur))| > 0
      requires forall k: nat, n: nat :: 0 < n ==> choose(k, n) < n
      ensures InGrid(sel.Loc()) && sel == At(sel.Loc()) && sel in Repr && !sel.visited
      ensures Adjacent(cur.Loc(), sel.Loc()) && sel.Loc() == Drawn(cur.Loc(), steps, choose)
    {
      var j := choose(steps, |Unvisited(Neighbours(cur))|);
      Picked(cur, j);
      assert Candidates(cur.Loc()) == Unvisited(Neighbours(cur));
      Unvisited(Neighbours(cur))[j]
    }

    /** The backtracking half of a turn: a top cell without unvisited neighbours leaves the stack. */
    lemma Retreat(stack: seq<Pos>, current: Cell, v0: map<Pos, CellState>, openings: set<(Pos, int)>,
                  root: Pos, parent: map<Pos, Pos>, rank: map<Pos, nat>)
      requires Valid() && stack != [] && InGrid(stack[|stack| - 1]) && current == At(stack[|stack| - 1])
      requires Unvisited(Neighbours(current)) == []
      requires Run(v0, View(), openings, root, parent, rank)
      requires Pending(stack, rank, Marks(v0) + rank.Keys, width, height)
      ensures Pending(stack[..|stack| - 1], rank, Marks(v0) + rank.Keys, width, height)
    {
      Exhausted(current, v0, openings, root, parent, rank);
      PendingPop(stack, rank, Marks(v0) + rank.Keys, width, height);
    }

    /**
      The carving half of a turn: `sel`, an unvisited neighbour of the top
      cell `current` of the stack, is carved into and pushed above it, and
      joins the tree under `current`.
    */
    method Grow(stack: seq<Pos>, current: Cell, sel: Cell, ghost v0: map<Pos, CellState>,
                ghost openings: set<(Pos, int)>, ghost root: Pos, ghost parent: map<Pos, Pos>,
                ghost rank: map<Pos, nat>, steps: nat)
      returns (stack': seq<Pos>, ghost parent': map<Pos, Pos>, ghost rank': map<Pos, nat>, steps': nat)
      requires Valid() && stack != [] && InGrid(stack[|stack| - 1]) && current == At(stack[|stack| - 1])
      requires InGrid(sel.Loc()) && sel == At(sel.Loc()) && !sel.visited && Adjacent(current.Loc(), sel.Loc())
      requires Run(v0, View(), openings, root, parent, rank)
      requires Pending(stack, rank, Marks(v0) + rank.Keys, width, height)
      requires steps == |parent|
      modifies Repr
      ensures Valid()
      ensures Run(v0, View(), openings, root, parent', rank')
      ensures Pending(stack', rank', Marks(v0) + rank'.Keys, width, height)
      ensures steps' == |parent'|
      ensures Unreached(v0, rank') < Unreached(v0, rank)
      ensures stack' == stack + [sel.Loc()] && steps' == steps + 1
      ensures parent' == parent[sel.Loc() := current.Loc()] && rank' == rank[sel.Loc() := |parent| + 1]
      ensures View() == CarveView(old(View()), current.Loc(), sel.Loc())
    {
      var q := sel.Loc();
      parent', rank' := Advance(current, sel, v0, openings, root, parent, rank);
      PendingGrow(stack, v0, rank, q, |parent| + 1, width, height);
      stack' := stack + [q];
      steps' := steps + 1;
    }

    /**
      One turn of the backtracker's loop: pop the top cell; if it has
      unvisited neighbours, push it back, pick one of them with `choose`,
      carve into it and push it. The stack holds the positions of the
      cells. The run description and the stack bookkeeping are kept, and
      either the tree grows by one cell that was neither marked before the
      run nor in the tree, or the stack shrinks.
    */
    method Visit(stack: seq<Pos>, ghost v0: map<Pos, CellState>, ghost openings: set<(Pos, int)>,
                 ghost root: Pos, ghost parent: map<Pos, Pos>, ghost rank: map<Pos, nat>, steps: nat,
                 choose: (nat, nat) -> nat)
      returns (stack': seq<Pos>, ghost parent': map<Pos, Pos>, ghost rank': map<Pos, nat>, steps': nat)
      requires Valid() && stack != []
      requires Run(v0, View(), openings, root, parent, rank)
      requires Pending(stack, rank, Marks(v0) + rank.Keys, width, height)
      requires steps == |parent|
      requires forall k: nat, n: nat :: 0 < n ==> choose(k, n) < n
      modifies Repr
      ensures Valid()
      ensures Run(v0, View(), openings, root, parent', rank')
      ensures Pending(stack', rank', Marks(v0) + rank'.Keys, width, height)
      ensures steps' == |parent'|
      ensures Unreached(v0, rank') < Unreached(v0, rank) ||
              (Unreached(v0, rank') == Unreached(v0, rank) && |stack'| < |stack|)
      // a dead end is dropped and nothing else changes
      ensures old(Candidates(stack[|stack| - 1])) == [] ==>
                && stack' == stack[..|stack| - 1]
                && parent' == parent && rank' == rank && steps' == steps
                && View() == old(View())
      // otherwise the top stays, the drawn candidate is carved into and pushed
      ensures old(Candidates(stack[|stack| - 1])) != [] ==>
                var top := stack[|stack| - 1];
                var q := old(Drawn(top, steps, choose));
                && stack' == stack + [q]
                && parent' == parent[q := top] && rank' == rank[q := |parent| + 1]
                && steps' == steps + 1
                && View() == CarveView(old(View()), top, q)
    {
      var n := |stack| - 1;
      var c := stack[n];
      var current := At(c);
      assert Candidates(c) == Unvisited(Neighbours(current));
      if |Unvisited(Neighbours(current))| > 0 {
        var sel := Choice(current, steps, choose);
        stack', parent', rank', steps' := Grow(stack, current, sel, v0, openings, root, parent, rank, steps);
      } else {
        Retreat(stack, current, v0, openings, root, parent, rank);
        stack', parent', rank', steps' := stack[..n], parent, rank, steps;
      }
    }

    /**
      The backtracker's main loop, from the stack `[root]` holding the
      opened start cell: it runs until the stack is empty and returns the
      number of carving steps. Every cell the run reaches joins the tree
      rooted at `root`, and at the end every neighbour of a tree cell is in
      the tree or was marked before the run.
    */
    method Search(root: Pos, ghost v0: map<Pos, CellState>, ghost openings: set<(Pos, int)>,
                  choose: (nat, nat) -> nat)
      returns (steps: nat, ghost parent: map<Pos, Pos>, ghost rank: map<Pos, nat>)
      requires Valid() && InGrid(root)
      requires Run(v0, View(), openings, root, map[], map[root := 0])
      requires forall k: nat, n: nat :: 0 < n ==> choose(k, n) < n
      modifies Repr
      ensures Valid() && Run(v0, View(), openings, root, parent, rank)
      ensures steps == |parent|
      ensures forall x :: x in rank ==> ClosedAt(Marks(v0) + rank.Keys, x, width, height)
    {
      parent, rank := map[], map[root := 0];
      steps := 0;
      var todo := [root];
      PendingStart(root, Marks(v0) + rank.Keys, width, height);
      while todo != []
        invariant Valid()
        invariant Run(v0, View(), openings, root, parent, rank)
        invariant Pending(todo, rank, Marks(v0) + rank.Keys, width, height)
        invariant steps == |parent|
        decreases Unreached(v0, rank), |todo|
      {
        todo, parent, rank, steps := Visit(todo, v0, openings, root, parent, rank, steps, choose);
      }
    }

    /** Opens side `d` of the start cell at `s` and marks it visited. */
    method Enter(s: Pos, d: int)
      requires Valid() && InGrid(s) && IsDirection(d)
      modifies Repr
      ensures Valid()
      ensures View() == old(View())[s := CellState(old(View())[s].walls[d := false], true)]
    {
      var current := At(s);
      OpenWall(current, d);
      Mark(current, true);
    }

    /** Every cell of a well-formed grid has four wall flags. */
    lemma FourWalls()
      requires Valid()
      ensures forall p :: p in View() ==> |View()[p].walls| == 4
    {
    }

    /**
      The part of a run after the start cell `s` was opened on side `en` and
      marked: opens side `ex` of the finish cell `f`, runs the main loop
      from `[s]` and returns the number of carving steps. `v0` is the grid
      before the start cell was opened.
    */
    method Explore(s: Pos, en: int, f: Pos, ex: int, ghost v0: map<Pos, CellState>, choose: (nat, nat) -> nat)
      returns (steps: nat, ghost parent: map<Pos, Pos>, ghost rank: map<Pos, nat>)
      requires Valid() && InGrid(s) && InGrid(f) && IsDirection(en) && IsDirection(ex)
      requires (forall p :: p in v0 <==> InGrid(p)) && forall p :: p in v0 ==> |v0[p].walls| == 4
      requires View() == v0[s := CellState(v0[s].walls[en := false], true)]
      requires forall k: nat, n: nat :: 0 < n ==> choose(k, n) < n
      modifies Repr
      ensures Valid()
      ensures Run(v0, View(), {(s, en), (f, ex)}, s, parent, rank) && steps == |parent|
      ensures forall x :: x in parent ==>
                !View()[x].walls[Toward(x, parent[x])] && !View()[parent[x]].walls[Toward(parent[x], x)]
      ensures forall x :: x in rank ==> ClosedAt(Marks(v0) + rank.Keys, x, width, height)
      ensures (forall p :: p in v0 ==> !v0[p].visited) ==>
                steps == width * height - 1 && forall p :: InGrid(p) ==> p in rank && View()[p].visited
    {
      OpenWall(At(f), ex);
      ghost var openings := {(s, en), (f, ex)};
      assert View() == Started(v0, s, en, f, ex);
      RunStart(v0, s, en, f, ex);
      steps, parent, rank := Search(s, v0, openings, choose);
      RunTreeOpen(v0, View(), openings, s, parent, rank);
      if forall p :: p in v0 ==> !v0[p].visited {
        RunSpans(v0, View(), openings, s, parent, rank, width, height);
      }
    }

    /**
      The randomized depth-first backtracker. `start` and `finish` are
      `(col, row)` pairs; `choose(k, n)` is the index the random source
      picks among `n` candidates on its `k`-th draw; the callback is
      counted in `callbacks`. The ghost results describe the carved tree:
      `parent[x]` is the cell `x` was carved from, `rank[x]` the order in
      which `x` was reached.
    */
    method RandomizeBacktracker(start: (int, int), entrance: int, finish: Option<(int, int)>, exit: int,
                                choose: (nat, nat) -> nat)
      returns (outcome: Outcome, ghost parent: map<Pos, Pos>, ghost rank: map<Pos, nat>)
      requires Valid()
      requires forall k: nat, n: nat :: 0 < n ==> choose(k, n) < n
      modifies Repr
      ensures Valid()
      ensures outcome.IndexError? <==>
                Resolve(start).None? || ListIndex(entrance, 4).None? ||
                Resolve(FinishOr(finish)).None? || ListIndex(exit, 4).None?
      // IndexError on the start cell or its entrance: nothing has changed
      ensures Resolve(start).None? || ListIndex(entrance, 4).None? ==> View() == old(View())
      // IndexError on the finish cell or its exit: only the start cell was opened and marked
      ensures outcome.IndexError? && Resolve(start).Some? && ListIndex(entrance, 4).Some? ==>
                var s := Resolve(start).value;
                View() == old(View())[s := CellState(old(View())[s].walls[ListIndex(entrance, 4).value := false], true)]
      ensures outcome.Finished? ==>
                var s := Resolve(start).value;
                var openings := {(s, ListIndex(entrance, 4).value),
                                 (Resolve(FinishOr(finish)).value, ListIndex(exit, 4).value)};
                && Run(old(View()), View(), openings, s, parent, rank)
                && outcome.callbacks == |parent|
                && (forall x :: x in parent ==>
                      !View()[x].walls[Toward(x, parent[x])] && !View()[parent[x]].walls[Toward(parent[x], x)])
                && (forall x :: x in rank ==> ClosedAt(Marks(old(View())) + rank.Keys, x, width, height))
      // on a grid with no marks the tree spans every cell
      ensures outcome.Finished? && (forall p :: p in old(View()) ==> !old(View())[p].visited) ==>
                && outcome.callbacks == width * height - 1
                && forall p :: InGrid(p) ==> p in rank && View()[p].visited
    {
      parent, rank := map[], map[];
      ghost var v0 := View();
      FourWalls();
      var sp := Resolve(start);
      var en := ListIndex(entrance, 4);
      if sp.None? || en.None? {
        return IndexError, parent, rank;
      }
      var s := sp.value;
      Enter(s, en.value);

      var fp := Resolve(FinishOr(finish));
      var ex := ListIndex(exit, 4);
      if fp.None? || ex.None? {
        return IndexError, parent, rank;
      }
      var steps;
      steps, parent, rank := Explore(s, en.value, fp.value, ex.value, v0, choose);
      outcome := Finished(steps);
    }
  }
}
