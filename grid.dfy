/**
 * The grid a maze is made of: positions, walls, the start and the goal,
 * the four-direction neighbourhood and what counts as a solution path.
 */
module Grid {

  /** A cell position; the source stores it as the int pair {row, col}. */
  datatype Pos = Pos(row: int, col: int)

  /** The four cells one step up, down, left and right of p, in that order. */
  function Candidates(p: Pos): seq<Pos>
  {
    [Pos(p.row - 1, p.col), Pos(p.row + 1, p.col), Pos(p.row, p.col - 1), Pos(p.row, p.col + 1)]
  }

  /** p and q differ by one step in exactly one of the four directions. */
  predicate Adjacent(p: Pos, q: Pos)
  {
    (p.row == q.row && (q.col == p.col - 1 || q.col == p.col + 1)) ||
    (p.col == q.col && (q.row == p.row - 1 || q.row == p.row + 1))
  }

  lemma CandidatesAreAdjacent(p: Pos, q: Pos)
    ensures q in Candidates(p) <==> Adjacent(p, q)
  {
  }

  /**
   * A maze: height rows of width cells, walls[r][c] telling whether a cell
   * is a wall, and the start and goal cells.
   */
  datatype Grid = Grid(height: nat, width: nat, walls: seq<seq<bool>>, start: Pos, goal: Pos)
  {
    predicate Rectangular()
    {
      |walls| == height && forall r :: 0 <= r < |walls| ==> |walls[r]| == width
    }

    /** What the decoder always produces: a full wall table and an in-range start. */
    predicate Valid()
    {
      Rectangular() && InRange(start)
    }

    predicate InRange(p: Pos)
    {
      0 <= p.row < height && 0 <= p.col < width
    }

    /** An in-range cell that is not a wall. */
    predicate IsOpen(p: Pos)
      requires Rectangular()
    {
      InRange(p) && !walls[p.row][p.col]
    }
  }

  /** The elements of cs that are open cells of g, in their order in cs. */
  function KeepOpen(g: Grid, cs: seq<Pos>): seq<Pos>
    requires g.Rectangular()
  {
    if cs == [] then []
    else if g.IsOpen(cs[0]) then [cs[0]] + KeepOpen(g, cs[1..])
    else KeepOpen(g, cs[1..])
  }

  /** KeepOpen drops exactly the cells that are not open, and nothing else. */
  lemma {:induction false} KeepOpenMembers(g: Grid, cs: seq<Pos>)
    requires g.Rectangular()
    ensures |KeepOpen(g, cs)| <= |cs|
    ensures forall q :: q in KeepOpen(g, cs) <==> q in cs && g.IsOpen(q)
  {
    if cs != [] {
      KeepOpenMembers(g, cs[1..]);
      assert forall q :: q in cs <==> q == cs[0] || q in cs[1..];
    }
  }

  /** The neighbours a search step may move to, in the order up, down, left, right. */
  function OpenNeighbors(g: Grid, p: Pos): seq<Pos>
    requires g.Rectangular()
  {
    KeepOpen(g, Candidates(p))
  }

  /**
   * At most four neighbours; each is an open cell one step from p, and
   * every open cell one step from p is one of them.
   */
  lemma OpenNeighborsExact(g: Grid, p: Pos)
    requires g.Rectangular()
    ensures |OpenNeighbors(g, p)| <= 4
    ensures forall q :: q in OpenNeighbors(g, p) ==> g.IsOpen(q) && Adjacent(p, q)
    ensures forall q :: g.IsOpen(q) && Adjacent(p, q) ==> q in OpenNeighbors(g, p)
  {
    KeepOpenMembers(g, Candidates(p));
  }

  /** Filtering a concatenation filters each part. */
  lemma {:induction false} KeepOpenAppend(g: Grid, a: seq<Pos>, b: seq<Pos>)
    requires g.Rectangular()
    ensures KeepOpen(g, a + b) == KeepOpen(g, a) + KeepOpen(g, b)
  {
    if a != [] {
      assert (a + b)[1..] == a[1..] + b;
      KeepOpenAppend(g, a[1..], b);
    } else {
      assert a + b == b;
    }
  }

  /** The one-cell list [q] when q is open, and the empty list otherwise. */
  function IfOpen(g: Grid, q: Pos): seq<Pos>
    requires g.Rectangular()
  {
    if g.IsOpen(q) then [q] else []
  }

  /** Filtering one more element of cs adds that element if it is open. */
  lemma KeepOpenSnoc(g: Grid, cs: seq<Pos>, i: nat)
    requires g.Rectangular() && i < |cs|
    ensures KeepOpen(g, cs[..i + 1]) == KeepOpen(g, cs[..i]) + IfOpen(g, cs[i])
  {
    assert cs[..i + 1] == cs[..i] + [cs[i]];
    KeepOpenAppend(g, cs[..i], [cs[i]]);
    assert [cs[i]][1..] == [];
  }

  /** The neighbour list holds the cells up, down, left and right of p in that order, each only if open. */
  lemma OpenNeighborsOrder(g: Grid, p: Pos)
    requires g.Rectangular()
    ensures OpenNeighbors(g, p) ==
              IfOpen(g, Pos(p.row - 1, p.col)) + IfOpen(g, Pos(p.row + 1, p.col)) +
              IfOpen(g, Pos(p.row, p.col - 1)) + IfOpen(g, Pos(p.row, p.col + 1))
  {
    var up, down, left, right := Pos(p.row - 1, p.col), Pos(p.row + 1, p.col), Pos(p.row, p.col - 1), Pos(p.row, p.col + 1);
    assert Candidates(p) == [up] + [down] + [left] + [right];
    KeepOpenAppend(g, [up] + [down] + [left], [right]);
    KeepOpenAppend(g, [up] + [down], [left]);
    KeepOpenAppend(g, [up], [down]);
    forall x
      ensures KeepOpen(g, [x]) == IfOpen(g, x)
    {
      assert [x][1..] == [];
    }
  }

  /**
   * p is a walk from `from`: its first cell is adjacent to `from`, each
   * next cell is adjacent to the previous one and every cell is open.
   */
  predicate IsWalk(g: Grid, from: Pos, p: seq<Pos>)
    requires g.Rectangular()
  {
    |p| > 0 && Adjacent(from, p[0]) &&
    (forall i, j :: 0 <= i < |p| && j == i + 1 && j < |p| ==> Adjacent(p[i], p[j])) &&
    (forall i :: 0 <= i < |p| ==> g.IsOpen(p[i]))
  }

  /** A solution: a walk from the start that ends at the goal (the start itself is not listed). */
  predicate IsSolution(g: Grid, p: seq<Pos>)
    requires g.Rectangular()
  {
    IsWalk(g, g.start, p) && p[|p| - 1] == g.goal
  }

  /** No cell outside e is one step away from a cell in e. */
  ghost predicate Closed(g: Grid, e: set<Pos>)
    requires g.Rectangular()
  {
    forall x, y :: x in e && Adjacent(x, y) && g.IsOpen(y) ==> y in e
  }

  lemma {:induction false} WalkStaysInside(g: Grid, e: set<Pos>, from: Pos, p: seq<Pos>, k: nat)
    requires g.Rectangular() && Closed(g, e) && from in e
    requires IsWalk(g, from, p) && k < |p|
    ensures p[k] in e
  {
    if k > 0 {
      WalkStaysInside(g, e, from, p, k - 1);
      assert Adjacent(p[k - 1], p[k]);
    }
  }

  /** A closed set of cells that holds the start but not the goal rules out every solution. */
  lemma ClosedSetBlocksGoal(g: Grid, e: set<Pos>)
    requires g.Rectangular() && Closed(g, e)
    requires g.start in e && g.goal !in e
    ensures forall p :: !IsSolution(g, p)
  {
    forall p | IsSolution(g, p)
      ensures false
    {
      WalkStaysInside(g, e, g.start, p, |p| - 1);
    }
  }

  /** All in-range cells of an h-by-w grid. */
  ghost function CellsOf(h: nat, w: nat): set<Pos>
  {
    set r: int, c: int | 0 <= r < h && 0 <= c < w :: Pos(r, c)
  }

  ghost function RowOf(r: int, w: nat): set<Pos>
  {
    set c: int | 0 <= c < w :: Pos(r, c)
  }

  lemma {:induction false} RowCount(r: int, w: nat)
    ensures |RowOf(r, w)| == w
  {
    if w == 0 {
      assert RowOf(r, w) == {};
    } else {
      RowCount(r, w - 1);
      assert RowOf(r, w) == RowOf(r, w - 1) + {Pos(r, w - 1)};
    }
  }

  /** An h-by-w grid has h * w cells. */
  lemma {:induction false} CellsCount(h: nat, w: nat)
    ensures |CellsOf(h, w)| == h * w
  {
    if h == 0 {
      assert CellsOf(h, w) == {};
    } else {
      CellsCount(h - 1, w);
      RowCount(h - 1, w);
      assert CellsOf(h, w) == CellsOf(h - 1, w) + RowOf(h - 1, w);
      assert CellsOf(h - 1, w) * RowOf(h - 1, w) == {};
      assert (h - 1) * w + w == h * w;
    }
  }

  ghost predicate Distinct<T>(s: seq<T>)
  {
    forall i, j :: 0 <= i < j < |s| ==> s[i] != s[j]
  }

  /** A repetition-free sequence drawn from a finite set is no longer than the set. */
  lemma {:induction false} DistinctBound<T>(s: seq<T>, univ: set<T>)
    requires Distinct(s)
    requires forall i :: 0 <= i < |s| ==> s[i] in univ
    ensures |s| <= |univ|
  {
    if |s| > 0 {
      var rest := s[1..];
      forall i | 0 <= i < |rest|
        ensures rest[i] in univ - {s[0]}
      {
        assert rest[i] == s[i + 1];
      }
      DistinctBound(rest, univ - {s[0]});
    }
  }
}
