/**
 * The symbol the maze printout shows for each cell. Writing the symbols to
 * the console is not modelled; the maze's fields become parameters.
 */
module Render {
  import opened Wrappers
  import opened Grid
  import opened Loader

  /** The full block the printout shows for a wall. */
  const WallGlyph: char := '█'

  /**
   * A wall is drawn first, then the start, then the goal, then a cell on the
   * recorded path, and any other cell blank.
   */
  function CellSymbol(g: Grid, path: Option<seq<Pos>>, p: Pos): (s: char)
    requires g.Rectangular() && g.InRange(p)
    ensures s in {WallGlyph, 'A', 'B', '*', ' '}
    ensures s == WallGlyph <==> !g.IsOpen(p)
    ensures s == 'A' <==> g.IsOpen(p) && p == g.start
    ensures s == 'B' <==> g.IsOpen(p) && p != g.start && p == g.goal
    ensures s == '*' <==> g.IsOpen(p) && p != g.start && p != g.goal && path.Some? && p in path.value
  {
    if g.walls[p.row][p.col] then WallGlyph
    else if p == g.start then 'A'
    else if p == g.goal then 'B'
    else if path.Some? && p in path.value then '*'
    else ' '
  }

  /**
   * Before any search, printing a decoded maze gives back its text within
   * the width of the first line: 'A', 'B' and blanks stay, any other
   * character becomes a wall block, and an earlier 'A' or 'B' that a later
   * one overrode is printed blank.
   */
  lemma {:induction false} RenderDecoded(lines: seq<string>, g: Grid, i: nat, j: nat)
    requires Decode(lines) == Ok(g)
    requires i < g.height && j < g.width
    ensures CellSymbol(g, None, Pos(i, j)) ==
      if lines[i][j] == 'A' then (if Pos(i, j) == g.start then 'A' else ' ')
      else if lines[i][j] == 'B' then (if Pos(i, j) == g.goal then 'B' else ' ')
      else if lines[i][j] == ' ' then ' '
      else WallGlyph
  {
    DecodeOk(lines);
    var p := Pos(i, j);
    if p == g.start {
      assert lines[i][j] == 'A';
    } else if p == g.goal {
      assert lines[i][j] == 'B';
    }
  }

  lemma DecodeOk(lines: seq<string>)
    requires Decode(lines).Ok?
    ensures DecodedFrom(Decode(lines).value, lines)
  {
  }

  /**
   * With a path found by the search, a cell is starred exactly when it is on
   * the path and is not the goal, and no path cell is drawn as a wall.
   */
  lemma {:induction false} RenderSolution(g: Grid, path: seq<Pos>, p: Pos)
    requires g.Valid() && g.InRange(p)
    requires IsSolution(g, path) && g.start !in path
    ensures CellSymbol(g, Some(path), p) == '*' <==> p in path && p != g.goal
    ensures p in path ==> CellSymbol(g, Some(path), p) != WallGlyph
  {
    if p in path {
      var k :| 0 <= k < |path| && path[k] == p;
      assert g.IsOpen(path[k]);
    }
  }
}
