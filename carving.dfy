/**
  What a run of the backtracker does to the walls, stated on values.
  A run records, for every cell it reaches from the start, the cell it was
  carved from (`parent`) and the order in which it was reached (`rank`).
  The walls it opens are exactly the two openings (entrance, exit) and the
  wall pairs between a cell and its parent.
*/
module Carving {
  import opened Grid

  /** The wall on side `d` of `p` lies between `p` and its parent, or between `p` and a child of `p`. */
  predicate Carved(parent: map<Pos, Pos>, p: Pos, d: int)
    requires IsDirection(d)
  {
    var q := Step(p, d);
    (p in parent && parent[p] == q) || (q in parent && parent[q] == p)
  }

  /** Side `d` of `p` stays closed: it was closed and is neither an opening nor a carved edge. */
  predicate StaysClosed(wall: bool, p: Pos, d: int, openings: set<(Pos, int)>, parent: map<Pos, Pos>)
    requires IsDirection(d)
  {
    wall && (p, d) !in openings && !Carved(parent, p, d)
  }

  /** The walls of `p` after a run that started from walls `w`. */
  function Opened(w: seq<bool>, p: Pos, openings: set<(Pos, int)>, parent: map<Pos, Pos>): (r: seq<bool>)
    requires |w| == 4
    ensures |r| == 4
    ensures forall d :: 0 <= d < 4 && r[d] ==> w[d]
    ensures forall d :: 0 <= d < 4 && ((p, d) in openings || Carved(parent, p, d)) ==> !r[d]
  {
    [StaysClosed(w[0], p, 0, openings, parent), StaysClosed(w[1], p, 1, openings, parent),
     StaysClosed(w[2], p, 2, openings, parent), StaysClosed(w[3], p, 3, openings, parent)]
  }

  /** The tree edge between two cells is seen from both sides. */
  lemma CarvedSymmetric(parent: map<Pos, Pos>, p: Pos, d: int)
    requires IsDirection(d)
    ensures Carved(parent, p, d) == Carved(parent, Step(p, d), Opposite(d))
  {
  }

  /**
    Walls between two neighbours stay paired: if the two facing sides
    agreed before a run and neither is an opening, they agree after it.
  */
  lemma OpenedSymmetric(w: seq<bool>, w': seq<bool>, p: Pos, d: int,
                        openings: set<(Pos, int)>, parent: map<Pos, Pos>)
    requires |w| == 4 && |w'| == 4 && IsDirection(d)
    requires w[d] == w'[Opposite(d)]
    requires (p, d) !in openings && (Step(p, d), Opposite(d)) !in openings
    ensures Opened(w, p, openings, parent)[d] == Opened(w', Step(p, d), openings, parent)[Opposite(d)]
  {
    CarvedSymmetric(parent, p, d);
  }

  /**
    Carving the edge from `cur` to a new cell `sel` (not yet in the tree)
    opens exactly the two facing sides of that edge.
  */
  lemma CarvedExtend(parent: map<Pos, Pos>, cur: Pos, sel: Pos, p: Pos, d: int)
    requires IsDirection(d) && Adjacent(cur, sel)
    requires sel !in parent && sel !in parent.Values
    ensures Carved(parent[sel := cur], p, d) <==>
              Carved(parent, p, d) || (p == cur && d == Toward(cur, sel)) || (p == sel && d == Toward(sel, cur))
  {
    StepToward(cur, sel, d);
    StepToward(sel, cur, d);
  }

  /** The walls of every cell after one more carving, from the walls before it. */
  lemma OpenedExtend(w: seq<bool>, p: Pos, openings: set<(Pos, int)>, parent: map<Pos, Pos>, cur: Pos, sel: Pos)
    requires |w| == 4 && Adjacent(cur, sel)
    requires sel !in parent && sel !in parent.Values
    ensures Opened(w, p, openings, parent[sel := cur]) ==
              if p == cur then Opened(w, p, openings, parent)[Toward(cur, sel) := false]
              else if p == sel then Opened(w, p, openings, parent)[Toward(sel, cur) := false]
              else Opened(w, p, openings, parent)
  {
    forall d | 0 <= d < 4 {
      CarvedExtend(parent, cur, sel, p, d);
    }
    assert cur != sel;
  }

  /**
    `parent` and `rank` describe a tree rooted at `root`: every non-root
    cell has an adjacent parent that was reached strictly earlier.
  */
  ghost predicate TreeShaped(root: Pos, parent: map<Pos, Pos>, rank: map<Pos, nat>) {
    root !in parent &&
    (forall x :: x in rank <==> x in parent || x == root) &&
    forall x {:trigger parent[x]} :: x in parent ==> parent[x] in rank && rank[parent[x]] < rank[x] && Adjacent(x, parent[x])
  }

  /** A tree has one more cell than it has edges. */
  lemma TreeSize(root: Pos, parent: map<Pos, Pos>, rank: map<Pos, nat>)
    requires TreeShaped(root, parent, rank)
    ensures |rank| == |parent| + 1
  {
    assert rank.Keys == parent.Keys + {root};
  }

  /**
    The path of parent links from `x` up to the root: each step crosses one
    tree edge, ranks strictly decrease along it (so no cell repeats), and
    it ends at the root.
  */
  function PathToRoot(root: Pos, parent: map<Pos, Pos>, rank: map<Pos, nat>, x: Pos): (path: seq<Pos>)
    requires TreeShaped(root, parent, rank) && x in rank
    ensures |path| >= 1 && path[0] == x && path[|path| - 1] == root
    ensures forall i :: 0 <= i < |path| ==> path[i] in rank
    ensures forall i :: 0 <= i < |path| - 1 ==>
              path[i] in parent && parent[path[i]] == path[i + 1] && Adjacent(path[i], path[i + 1])
    ensures forall i, j :: 0 <= i < j < |path| ==> rank[path[i]] > rank[path[j]]
    decreases rank[x]
  {
    if x == root then [x] else [x] + PathToRoot(root, parent, rank, parent[x])
  }

  /** Every tree edge is open on both of its sides. */
  lemma {:induction false} TreeEdgesOpen(w: seq<bool>, w': seq<bool>, openings: set<(Pos, int)>,
                                        parent: map<Pos, Pos>, x: Pos)
    requires |w| == 4 && |w'| == 4
    requires x in parent && Adjacent(x, parent[x])
    ensures !Opened(w, x, openings, parent)[Toward(x, parent[x])]
    ensures !Opened(w', parent[x], openings, parent)[Toward(parent[x], x)]
  {
    StepToward(x, parent[x], Toward(x, parent[x]));
    StepToward(parent[x], x, Toward(parent[x], x));
    assert Carved(parent, x, Toward(x, parent[x]));
    assert Carved(parent, parent[x], Toward(parent[x], x));
  }

  /**
    The depth-first search's bookkeeping: every position on the stack
    `locs` is in the tree, and every tree cell not on the stack has all
    of its in-bounds neighbours in `done`.
  */
  ghost predicate Pending(locs: seq<Pos>, rank: map<Pos, nat>, done: set<Pos>, width: int, height: int) {
    (forall i :: 0 <= i < |locs| ==> locs[i] in rank && InBounds(locs[i], width, height)) &&
    forall x {:trigger ClosedAt(done, x, width, height)} :: x in rank ==> x in locs || ClosedAt(done, x, width, height)
  }

  /** The stack holding only the root of a one-cell tree. */
  lemma PendingStart(root: Pos, done: set<Pos>, width: int, height: int)
    requires InBounds(root, width, height)
    ensures Pending([root], map[root := 0], done, width, height)
  {
  }

  /** Pushing a new tree cell keeps the bookkeeping while `done` only grows. */
  lemma PendingPush(locs: seq<Pos>, rank: map<Pos, nat>, done: set<Pos>, done': set<Pos>,
                    q: Pos, r: nat, width: int, height: int)
    requires Pending(locs, rank, done, width, height) && done <= done' && InBounds(q, width, height)
    ensures Pending(locs + [q], rank[q := r], done', width, height)
  {
    forall x | x in rank[q := r] && x !in locs + [q] ensures ClosedAt(done', x, width, height) {
      assert ClosedAt(done, x, width, height);
    }
  }

  /** Popping a cell whose neighbours are all done keeps the bookkeeping. */
  lemma PendingPop(locs: seq<Pos>, rank: map<Pos, nat>, done: set<Pos>, width: int, height: int)
    requires Pending(locs, rank, done, width, height) && |locs| > 0
    requires ClosedAt(done, locs[|locs| - 1], width, height)
    ensures Pending(locs[..|locs| - 1], rank, done, width, height)
  {
    var n := |locs| - 1;
    forall x | x in rank && x !in locs[..n] ensures ClosedAt(done, x, width, height) {
      assert locs == locs[..n] + [locs[n]];
    }
  }
}
