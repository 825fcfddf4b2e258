/**
 * Turning the lines of a maze file into a grid: 'A' is the start, 'B' the
 * goal, a space an open cell and any other character a wall. Reading the
 * file itself is not modelled; the decoder takes its lines.
 */
module Loader {
  import opened Wrappers
  import opened Grid

  /** Why a maze text is rejected. */
  datatype LoadError =
    | WrongStartGoalCount  // not exactly one line with an 'A' and one with a 'B'
    | ShortLine            // a line shorter than the first one
    | StartUnread          // the only 'A' lies past the width of the first line
    | GoalUnread           // the only 'B' lies past the width of the first line

  /** What one character of the maze text stands for. */
  datatype Cell = StartCell | GoalCell | OpenCell | WallCell

  function DecodeCell(ch: char): Cell
  {
    if ch == 'A' then StartCell
    else if ch == 'B' then GoalCell
    else if ch == ' ' then OpenCell
    else WallCell
  }

  /** The indices of the lines that contain ch. */
  ghost function LinesWith(lines: seq<string>, ch: char): set<nat>
  {
    set i: nat | i < |lines| && ch in lines[i]
  }

  /** How many lines contain ch somewhere, as the start/goal check counts them. */
  function LinesContaining(lines: seq<string>, ch: char): (n: nat)
    ensures n == |LinesWith(lines, ch)|
    ensures n <= |lines|
  {
    if lines == [] then
      assert LinesWith(lines, ch) == {};
      0
    else
      var init := lines[..|lines| - 1];
      var last := |lines| - 1;
      assert LinesWith(lines, ch) == LinesWith(init, ch) + (if ch in lines[last] then {last} else {}) by {
        forall i: nat | i < |init|
          ensures init[i] == lines[i]
        {
        }
      }
      LinesContaining(init, ch) + (if ch in lines[last] then 1 else 0)
  }

  /** Cell (i, j) comes no later than p in row-major order. */
  predicate NotAfter(i: int, j: int, p: Pos)
  {
    i < p.row || (i == p.row && j <= p.col)
  }

  /** The last column below w holding ch. */
  function LastInLine(line: string, w: nat, ch: char): (r: Option<nat>)
    requires w <= |line|
    ensures r.Some? ==> r.value < w && line[r.value] == ch && forall j :: r.value < j < w ==> line[j] != ch
    ensures r.None? ==> forall j :: 0 <= j < w ==> line[j] != ch
  {
    if w == 0 then None
    else if line[w - 1] == ch then Some(w - 1)
    else LastInLine(line, w - 1, ch)
  }

  /**
   * The last cell holding ch, in row-major order, within the first w
   * columns: the one the decoding loop assigns last.
   */
  function FindLast(rows: seq<string>, w: nat, ch: char): (r: Option<Pos>)
    requires forall i :: 0 <= i < |rows| ==> w <= |rows[i]|
    ensures r.Some? ==> 0 <= r.value.row < |rows| && 0 <= r.value.col < w && rows[r.value.row][r.value.col] == ch
    ensures r.Some? ==> forall i, j :: 0 <= i < |rows| && 0 <= j < w && rows[i][j] == ch ==> NotAfter(i, j, r.value)
    ensures r.None? ==> forall i, j :: 0 <= i < |rows| && 0 <= j < w ==> rows[i][j] != ch
  {
    if rows == [] then None
    else
      var last := |rows| - 1;
      match LastInLine(rows[last], w, ch)
      case Some(j) => Some(Pos(last, j))
      case None =>
        var r := FindLast(rows[..last], w, ch);
        assert forall i :: 0 <= i < last ==> rows[..last][i] == rows[i];
        r
  }

  /** The wall flags of one line: every character but 'A', 'B' and space is a wall. */
  function WallRow(line: string, w: nat): seq<bool>
    requires w <= |line|
  {
    seq(w, j requires 0 <= j < w => DecodeCell(line[j]) == WallCell)
  }

  predicate CountsOk(lines: seq<string>)
  {
    LinesContaining(lines, 'A') == 1 && LinesContaining(lines, 'B') == 1
  }

  /** No line is shorter than the first (vacuous for no lines). */
  predicate LongEnough(lines: seq<string>)
  {
    forall i :: 0 <= i < |lines| ==> |lines[0]| <= |lines[i]|
  }

  /** Some cell within the first w columns holds ch. */
  predicate HasCell(lines: seq<string>, w: nat, ch: char)
  {
    exists i, j :: 0 <= i < |lines| && 0 <= j < w && j < |lines[i]| && lines[i][j] == ch
  }

  /**
   * g is the grid the lines describe: one row per line, as wide as the first
   * line, a wall exactly where the character is not 'A', 'B' or a space,
   * the start at the last 'A' and the goal at the last 'B'.
   */
  predicate DecodedFrom(g: Grid, lines: seq<string>)
  {
    |lines| > 0 && g.height == |lines| && g.width == |lines[0]| && LongEnough(lines) &&
    g.Valid() && g.InRange(g.goal) &&
    (forall i, j :: 0 <= i < g.height && 0 <= j < g.width ==>
       (g.walls[i][j] <==> lines[i][j] !in {'A', 'B', ' '})) &&
    lines[g.start.row][g.start.col] == 'A' &&
    lines[g.goal.row][g.goal.col] == 'B' &&
    (forall i, j :: 0 <= i < g.height && 0 <= j < g.width && lines[i][j] == 'A' ==> NotAfter(i, j, g.start)) &&
    (forall i, j :: 0 <= i < g.height && 0 <= j < g.width && lines[i][j] == 'B' ==> NotAfter(i, j, g.goal)) &&
    g.IsOpen(g.start) && g.IsOpen(g.goal) && g.start != g.goal
  }

  /**
   * Decodes the lines of a maze file. The source rejects a text unless exactly
   * one line contains an 'A' and exactly one a 'B', and fails on a line
   * shorter than the first.
   */
  function Decode(lines: seq<string>): (r: Result<Grid, LoadError>)
    ensures !CountsOk(lines) ==> r == Err(WrongStartGoalCount)
    ensures CountsOk(lines) && !LongEnough(lines) ==> r == Err(ShortLine)
    ensures CountsOk(lines) && LongEnough(lines) && !HasCell(lines, |lines[0]|, 'A') ==> r == Err(StartUnread)
    ensures (CountsOk(lines) && LongEnough(lines) && HasCell(lines, |lines[0]|, 'A') &&
             !HasCell(lines, |lines[0]|, 'B')) ==> r == Err(GoalUnread)
    ensures (CountsOk(lines) && LongEnough(lines) && HasCell(lines, |lines[0]|, 'A') &&
             HasCell(lines, |lines[0]|, 'B')) ==> r.Ok? && DecodedFrom(r.value, lines)
  {
    if !CountsOk(lines) then Err(WrongStartGoalCount)
    else
      var w := |lines[0]|;
      if !LongEnough(lines) then Err(ShortLine)
      else
        match (FindLast(lines, w, 'A'), FindLast(lines, w, 'B'))
        case (None, _) => Err(StartUnread)
        case (Some(_), None) => Err(GoalUnread)
        case (Some(start), Some(goal)) =>
          BuiltGrid(lines, start, goal);
          Ok(Grid(|lines|, w, Walls(lines), start, goal))
  }

  /** The wall flags of every line, each cut to the width of the first. */
  function Walls(lines: seq<string>): seq<seq<bool>>
    requires |lines| > 0 && LongEnough(lines)
  {
    seq(|lines|, i requires 0 <= i < |lines| => WallRow(lines[i], |lines[0]|))
  }

  lemma BuiltGrid(lines: seq<string>, start: Pos, goal: Pos)
    requires |lines| > 0 && LongEnough(lines)
    requires FindLast(lines, |lines[0]|, 'A') == Some(start)
    requires FindLast(lines, |lines[0]|, 'B') == Some(goal)
    ensures DecodedFrom(Grid(|lines|, |lines[0]|, Walls(lines), start, goal), lines)
  {
  }
}
