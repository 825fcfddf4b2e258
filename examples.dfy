/** Small mazes worked through the model. */
module Examples {
  import opened Wrappers
  import opened Grid
  import opened Loader
  import opened Search

  /** "A B": a corridor with the goal two steps to the right of the start. */
  const Corridor := Grid(1, 3, [[false, false, false]], Pos(0, 0), Pos(0, 2))

  /** "A#B": the same corridor with a wall in the middle. */
  const Blocked := Grid(1, 3, [[false, true, false]], Pos(0, 0), Pos(0, 2))

  lemma CorridorDecodes()
    ensures Decode(["A B"]) == Ok(Corridor)
  {
    var lines := ["A B"];
    assert CountsOk(lines) by {
      assert 'A' in lines[0] && 'B' in lines[0];
    }
    assert LongEnough(lines);
    assert HasCell(lines, 3, 'A') by { assert lines[0][0] == 'A'; }
    assert HasCell(lines, 3, 'B') by { assert lines[0][2] == 'B'; }
    var g := Decode(lines).value;
    assert g.walls == Corridor.walls by {
      assert g.walls[0] == [false, false, false];
    }
  }

  lemma CorridorSolvable()
    ensures IsSolution(Corridor, [Pos(0, 1), Pos(0, 2)])
  {
  }

  lemma BlockedDecodes()
    ensures Decode(["A#B"]) == Ok(Blocked)
  {
    var lines := ["A#B"];
    assert CountsOk(lines) by {
      assert 'A' in lines[0] && 'B' in lines[0];
    }
    assert LongEnough(lines);
    assert HasCell(lines, 3, 'A') by { assert lines[0][0] == 'A'; }
    assert HasCell(lines, 3, 'B') by { assert lines[0][2] == 'B'; }
    var g := Decode(lines).value;
    assert g.walls == Blocked.walls by {
      assert g.walls[0] == [false, true, false];
    }
  }

  lemma BlockedUnsolvable()
    ensures forall p :: !IsSolution(Blocked, p)
  {
    forall y | Adjacent(Pos(0, 0), y)
      ensures !Blocked.IsOpen(y)
    {
      assert y == Pos(0, 1) || y.row < 0 || y.row > 0 || y.col < 0;
    }
    assert Closed(Blocked, {Pos(0, 0)});
    ClosedSetBlocksGoal(Blocked, {Pos(0, 0)});
  }

  /** Two lines with an 'A' are refused, however many cells they hold. */
  lemma TwoStartLinesRejected()
    ensures Decode(["A B", "A"]) == Err(WrongStartGoalCount)
  {
    var lines := ["A B", "A"];
    assert 'A' in lines[0] && 'A' in lines[1];
    assert LinesContaining(lines, 'A') == 2;
  }

  /** A line shorter than the first is refused. */
  lemma ShortLineRejected()
    ensures Decode(["A B", "#"]) == Err(ShortLine)
  {
    var lines := ["A B", "#"];
    assert 'A' in lines[0] && 'B' in lines[0];
    assert 'A' !in lines[1] && 'B' !in lines[1];
    assert CountsOk(lines);
    assert |lines[1]| < |lines[0]|;
  }

  /** An 'A' past the width of the first line is never read. */
  lemma StartPastWidthRejected()
    ensures Decode(["B ", "  A"]) == Err(StartUnread)
  {
    var lines := ["B ", "  A"];
    assert 'B' in lines[0] && 'A' !in lines[0];
    assert 'A' in lines[1] && 'B' !in lines[1];
    assert CountsOk(lines);
    assert LongEnough(lines);
    assert !HasCell(lines, 2, 'A');
  }

  /** The search finds the corridor's goal and cannot find the blocked one. */
  method SolveBoth() returns (corridor: Outcome, blocked: Outcome)
    ensures corridor == Solved && blocked == NoSolutionFound
  {
    CorridorSolvable();
    BlockedUnsolvable();
    var m1 := new Maze(Corridor);
    ghost var searched1;
    corridor, searched1 := m1.Solve();
    var m2 := new Maze(Blocked);
    ghost var searched2;
    blocked, searched2 := m2.Solve();
  }
}
