/**
  The state of a maze seen as a value: a map from each grid position to
  the walls and the visited mark of the cell there. The operations of the
  maze are specified by what they do to this map, and a run of the
  backtracker by how the map after it relates to the map before it.
*/
module Views {
  import opened Grid
  import opened Carving

  /** What a cell holds besides its position: its wall flags and its visited mark. */
  datatype CellState = CellState(walls: seq<bool>, visited: bool)

  /** The positions marked visited in a view of the grid. */
  function Marks(v: map<Pos, CellState>): (vis: set<Pos>)
    ensures forall p :: p in vis <==> p in v && v[p].visited
  {
    set p | p in v && v[p].visited
  }

  /** The cells a run may still reach: neither marked before it nor in its tree. */
  ghost function Unreached(v0: map<Pos, CellState>, rank: map<Pos, nat>): set<Pos> {
    v0.Keys - Marks(v0) - rank.Keys
  }

  /** The grid with every visited mark cleared and the walls kept. */
  function ClearMarks(v: map<Pos, CellState>): (v': map<Pos, CellState>)
    ensures v'.Keys == v.Keys && Marks(v') == {}
    ensures forall p :: p in v ==> v'[p].walls == v[p].walls
  {
    map p | p in v :: v[p].(visited := false)
  }

  /** Clearing the marks twice leaves the same grid as clearing them once. */
  lemma ClearMarksIdempotent(v: map<Pos, CellState>)
    ensures ClearMarks(ClearMarks(v)) == ClearMarks(v)
  {
    var once := ClearMarks(v);
    forall p | p in once ensures ClearMarks(once)[p] == once[p] {
    }
  }

  /** In `v`, the marks of the cells before row `r`, and of row `r` before column `c`, are cleared; walls are those of `v0`. */
  ghost predicate ClearedUpTo(v0: map<Pos, CellState>, v: map<Pos, CellState>, r: int, c: int) {
    v.Keys == v0.Keys &&
    forall p :: p in v ==> v[p].walls == v0[p].walls && (p.row < r || (p.row == r && p.col < c) ==> !v[p].visited)
  }

  /** Clearing the mark at `(r, c)` extends the cleared prefix by one cell. */
  lemma ClearedStep(v0: map<Pos, CellState>, v: map<Pos, CellState>, r: int, c: int)
    requires ClearedUpTo(v0, v, r, c) && Pos(r, c) in v
    ensures ClearedUpTo(v0, v[Pos(r, c) := v[Pos(r, c)].(visited := false)], r, c + 1)
  {
  }

  /** A fully cleared prefix is the grid with cleared marks. */
  lemma {:induction false} ClearedAll(v0: map<Pos, CellState>, v: map<Pos, CellState>, r: int)
    requires ClearedUpTo(v0, v, r, 0)
    requires forall p :: p in v ==> p.row < r
    ensures v == ClearMarks(v0)
  {
    var w := ClearMarks(v0);
    forall p | p in v ensures v[p] == w[p] {
    }
  }

  /** The grid after carving from `c` into its neighbour `q`: `q` is marked, and the sides facing each other are opened. */
  function CarveView(v: map<Pos, CellState>, c: Pos, q: Pos): map<Pos, CellState>
    requires c in v && q in v && |v[c].walls| == 4 && |v[q].walls| == 4
  {
    v[q := CellState(v[q].walls[Toward(q, c) := false], true)]
     [c := v[c].(walls := v[c].walls[Toward(c, q) := false])]
  }

  /** Marking `q`, opening its side `qSide`, then opening side `cSide` of `c`, is one carving step. */
  lemma CarveUpdates(v0: map<Pos, CellState>, v1: map<Pos, CellState>, v2: map<Pos, CellState>, v3: map<Pos, CellState>,
                     c: Pos, q: Pos, cSide: int, qSide: int)
    requires c != q && c in v0 && q in v0 && cSide == Toward(c, q) && qSide == Toward(q, c)
    requires |v0[c].walls| == 4 && |v0[q].walls| == 4
    requires v1 == v0[q := v0[q].(visited := true)]
    requires v2 == v1[q := v1[q].(walls := v1[q].walls[qSide := false])]
    requires v3 == v2[c := v2[c].(walls := v2[c].walls[cSide := false])]
    ensures v3 == CarveView(v0, c, q)
  {
  }

  /** The grid after the entrance side `en` of `s` is opened, `s` is marked, and the exit side `ex` of `f` is opened. */
  function Started(v0: map<Pos, CellState>, s: Pos, en: int, f: Pos, ex: int): map<Pos, CellState>
    requires s in v0 && f in v0 && IsDirection(en) && IsDirection(ex)
    requires |v0[s].walls| == 4 && |v0[f].walls| == 4
  {
    var v1 := v0[s := CellState(v0[s].walls[en := false], true)];
    v1[f := v1[f].(walls := v1[f].walls[ex := false])]
  }

  /**
    `parent` and `rank` form a tree rooted at `root` over cells of `v0`
    that `v0` had not marked; ranks stay below the number of tree edges.
  */
  ghost predicate TreeOver(v0: map<Pos, CellState>, root: Pos, parent: map<Pos, Pos>, rank: map<Pos, nat>) {
    TreeShaped(root, parent, rank) &&
    (forall x {:trigger rank[x]} :: x in rank ==> x in v0 && rank[x] <= |parent|) &&
    (forall x :: x in parent ==> !v0[x].visited)
  }

  /**
    What a run of the backtracker has done so far, seen on the grid's
    states: `v0` before the run, `v` now. Every cell's walls are `v0`'s
    with the openings and the carved tree edges removed, and a cell is
    marked when it was marked before or belongs to the tree.
  */
  ghost predicate Run(v0: map<Pos, CellState>, v: map<Pos, CellState>, openings: set<(Pos, int)>,
                      root: Pos, parent: map<Pos, Pos>, rank: map<Pos, nat>) {
    CellsAfter(v0, v, openings, parent, rank) && TreeOver(v0, root, parent, rank)
  }

  /** The cells of `v`: those of `v0`, walls opened at the openings and along `parent`, marked where `v0` or `rank` says. */
  ghost predicate CellsAfter(v0: map<Pos, CellState>, v: map<Pos, CellState>, openings: set<(Pos, int)>,
                             parent: map<Pos, Pos>, rank: map<Pos, nat>) {
    (forall p :: p in v <==> p in v0) &&
    forall p {:trigger v[p], v0[p]} :: p in v0 ==>
      |v0[p].walls| == 4 &&
      v[p] == CellState(Opened(v0[p].walls, p, openings, parent), v0[p].visited || p in rank)
  }

  /** Before any carving, a cell's walls lose exactly its openings. */
  lemma StartCell(w: seq<bool>, p: Pos, s: Pos, en: int, f: Pos, ex: int)
    requires |w| == 4 && IsDirection(en) && IsDirection(ex)
    ensures Opened(w, p, {(s, en), (f, ex)}, map[]) ==
              (if p == s && p == f then w[en := false][ex := false]
               else if p == s then w[en := false]
               else if p == f then w[ex := false]
               else w)
  {
  }

  /** The tree of a run that has reached only its root. */
  lemma TreeStart(v0: map<Pos, CellState>, root: Pos)
    requires root in v0
    ensures TreeOver(v0, root, map[], map[root := 0])
  {
  }

  /** Opening the entrance of `s`, marking `s` and opening the exit of `f` starts a run whose tree is `s` alone. */
  lemma RunStart(v0: map<Pos, CellState>, s: Pos, en: int, f: Pos, ex: int)
    requires s in v0 && f in v0 && IsDirection(en) && IsDirection(ex)
    requires forall p :: p in v0 ==> |v0[p].walls| == 4
    ensures Run(v0, Started(v0, s, en, f, ex), {(s, en), (f, ex)}, s, map[], map[s := 0])
  {
    var v := Started(v0, s, en, f, ex);
    forall p | p in v0
      ensures v[p] == CellState(Opened(v0[p].walls, p, {(s, en), (f, ex)}, map[]), v0[p].visited || p in map[s := 0])
    {
      StartCell(v0[p].walls, p, s, en, f, ex);
    }
    TreeStart(v0, s);
  }

  /** Hanging the new cell `q` under the tree cell `c` keeps the tree shape; `q` gets the next rank. */
  lemma ExtendTree(v0: map<Pos, CellState>, root: Pos, parent: map<Pos, Pos>, rank: map<Pos, nat>, c: Pos, q: Pos)
    requires TreeOver(v0, root, parent, rank)
    requires c in rank && q in v0 && q !in rank && !v0[q].visited && Adjacent(c, q)
    ensures TreeOver(v0, root, parent[q := c], rank[q := |parent| + 1])
  {
    var parent', rank' := parent[q := c], rank[q := |parent| + 1];
    forall x | x in parent' ensures parent'[x] in rank' && rank'[parent'[x]] < rank'[x] && Adjacent(x, parent'[x]) {
      if x != q {
        assert parent'[x] == parent[x];
      }
    }
  }

  /** Carving the edge between `c` and a cell `q` outside the tree opens its two facing sides and marks `q`. */
  lemma ExtendCells(v0: map<Pos, CellState>, v: map<Pos, CellState>, openings: set<(Pos, int)>,
                    parent: map<Pos, Pos>, rank: map<Pos, nat>, c: Pos, q: Pos, r: nat)
    requires CellsAfter(v0, v, openings, parent, rank)
    requires c in v && q in v && Adjacent(c, q) && q !in parent && q !in parent.Values
    ensures CellsAfter(v0, CarveView(v, c, q), openings, parent[q := c], rank[q := r])
  {
    var parent', rank' := parent[q := c], rank[q := r];
    var v' := CarveView(v, c, q);
    forall p | p in v0
      ensures v'[p] == CellState(Opened(v0[p].walls, p, openings, parent'), v0[p].visited || p in rank')
    {
      OpenedExtend(v0[p].walls, p, openings, parent, c, q);
    }
    assert CellsAfter(v0, v', openings, parent', rank');
  }

  /**
    Carving from the tree cell `c` into its unmarked neighbour `q` grows
    the tree by the edge `q -> c` and keeps the run description.
  */
  lemma RunExtend(v0: map<Pos, CellState>, v: map<Pos, CellState>, openings: set<(Pos, int)>,
                  root: Pos, parent: map<Pos, Pos>, rank: map<Pos, nat>, c: Pos, q: Pos)
    requires Run(v0, v, openings, root, parent, rank)
    requires c in rank && q in v && !v[q].visited && Adjacent(c, q)
    ensures Run(v0, CarveView(v, c, q), openings, root, parent[q := c], rank[q := |parent| + 1])
  {
    assert q !in rank && q !in parent.Values;
    ExtendCells(v0, v, openings, parent, rank, c, q, |parent| + 1);
    ExtendTree(v0, root, parent, rank, c, q);
  }

  /** At the end of a run every tree edge is open on both of its sides. */
  lemma RunTreeOpen(v0: map<Pos, CellState>, v: map<Pos, CellState>, openings: set<(Pos, int)>,
                    root: Pos, parent: map<Pos, Pos>, rank: map<Pos, nat>)
    requires Run(v0, v, openings, root, parent, rank)
    ensures forall x :: x in parent ==>
              !v[x].walls[Toward(x, parent[x])] && !v[parent[x]].walls[Toward(parent[x], x)]
  {
    forall x | x in parent
      ensures !v[x].walls[Toward(x, parent[x])] && !v[parent[x]].walls[Toward(parent[x], x)]
    {
      TreeEdgesOpen(v0[x].walls, v0[parent[x]].walls, openings, parent, x);
    }
  }

  /**
    The open walls connect every tree cell to the root: along the path of
    parent links from `x`, the walls between consecutive cells are open on
    both sides.
  */
  lemma PathOpen(v0: map<Pos, CellState>, v: map<Pos, CellState>, openings: set<(Pos, int)>,
                 root: Pos, parent: map<Pos, Pos>, rank: map<Pos, nat>, x: Pos)
    returns (path: seq<Pos>)
    requires Run(v0, v, openings, root, parent, rank) && x in rank
    ensures path == PathToRoot(root, parent, rank, x)
    ensures |path| >= 1 && path[0] == x && path[|path| - 1] == root
    // consecutive cells are named by two indices: a single index with both
    // `path[i]` and `path[i + 1]` as triggers would be a matching loop
    ensures forall i, j :: 0 <= i && j == i + 1 && j < |path| ==>
              path[i] in v && path[j] in v &&
              |v[path[i]].walls| == 4 && |v[path[j]].walls| == 4 &&
              !v[path[i]].walls[Toward(path[i], path[j])] &&
              !v[path[j]].walls[Toward(path[j], path[i])]
  {
    path := PathToRoot(root, parent, rank, x);
    forall i, j | 0 <= i && j == i + 1 && j < |path|
      ensures path[i] in v && path[j] in v &&
              |v[path[i]].walls| == 4 && |v[path[j]].walls| == 4 &&
              !v[path[i]].walls[Toward(path[i], path[j])] &&
              !v[path[j]].walls[Toward(path[j], path[i])]
    {
      EdgeOpen(v0, v, openings, root, parent, rank, path[i]);
    }
  }

  /** The edge from a tree cell `y` to its parent is open on both of its sides. */
  lemma EdgeOpen(v0: map<Pos, CellState>, v: map<Pos, CellState>, openings: set<(Pos, int)>,
                 root: Pos, parent: map<Pos, Pos>, rank: map<Pos, nat>, y: Pos)
    requires Run(v0, v, openings, root, parent, rank) && y in parent
    ensures y in v && parent[y] in v && |v[y].walls| == 4 && |v[parent[y]].walls| == 4
    ensures !v[y].walls[Toward(y, parent[y])] && !v[parent[y]].walls[Toward(parent[y], y)]
  {
    assert y in v0 && parent[y] in v0;
    TreeEdgesOpen(v0[y].walls, v0[parent[y]].walls, openings, parent, y);
  }

  /**
    On a grid with no marks, a tree whose every cell has all of its
    neighbours in the tree holds every cell of the grid.
  */
  lemma TreeCovers(v0: map<Pos, CellState>, root: Pos, rank: map<Pos, nat>, width: int, height: int)
    requires forall p :: p in v0 ==> !v0[p].visited
    requires root in rank && InBounds(root, width, height)
    requires forall x :: x in rank ==> ClosedAt(Marks(v0) + rank.Keys, x, width, height)
    ensures forall p :: InBounds(p, width, height) ==> p in rank
  {
    assert Marks(v0) == {};
    assert Closed(rank.Keys, width, height) by {
      forall x | x in rank.Keys ensures ClosedAt(rank.Keys, x, width, height) {
        assert Marks(v0) + rank.Keys == rank.Keys;
      }
    }
    ClosedSetCoversGrid(rank.Keys, root, width, height);
  }

  /**
    A run over a `width` x `height` grid with no marks, whose tree cells
    all have every neighbour in the tree, has reached and marked every
    cell, and its tree has one edge fewer than the grid has cells.
  */
  lemma {:induction false} RunSpans(v0: map<Pos, CellState>, v: map<Pos, CellState>, openings: set<(Pos, int)>,
                                    root: Pos, parent: map<Pos, Pos>, rank: map<Pos, nat>, width: nat, height: nat)
    requires Run(v0, v, openings, root, parent, rank)
    requires forall p :: p in v0 <==> InBounds(p, width, height)
    requires forall p :: p in v0 ==> !v0[p].visited
    requires root in v0
    requires forall x :: x in rank ==> ClosedAt(Marks(v0) + rank.Keys, x, width, height)
    ensures forall p :: InBounds(p, width, height) ==> p in rank && v[p].visited
    ensures |parent| == width * height - 1
  {
    TreeCovers(v0, root, rank, width, height);
    TreeSize(root, parent, rank);
    PositionsCount(width, height);
    assert rank.Keys == Positions(width, height);
  }

  /**
    Pushing an unvisited cell `q` that joins the tree keeps the stack
    bookkeeping, and `q` leaves the set of cells the run may still reach.
  */
  lemma PendingGrow(locs: seq<Pos>, v0: map<Pos, CellState>, rank: map<Pos, nat>, q: Pos, r: nat,
                    width: int, height: int)
    requires Pending(locs, rank, Marks(v0) + rank.Keys, width, height) && InBounds(q, width, height)
    requires q in v0 && !v0[q].visited && q !in rank
    ensures Pending(locs + [q], rank[q := r], Marks(v0) + rank[q := r].Keys, width, height)
    ensures Unreached(v0, rank[q := r]) < Unreached(v0, rank)
  {
    PendingPush(locs, rank, Marks(v0) + rank.Keys, Marks(v0) + rank[q := r].Keys, q, r, width, height);
    assert q in Unreached(v0, rank);
  }
}
