/**
 * The maze and its depth-first search from the start to the goal.
 */
module Search {
  import opened Wrappers
  import opened Grid
  import opened Frontiers
  import opened Loader

  /** How a search ends: with a solution path, or with the frontier exhausted. */
  datatype Outcome = Solved | NoSolutionFound

  /**
   * n's parent chain leads back to a root at the start; every other node on
   * it is an open cell other than the start, one step from its parent.
   */
  ghost predicate ValidChain(g: Grid, n: Node)
    requires g.Rectangular()
    decreases n
  {
    match n.parent
    case None => n.state == g.start
    case Some(p) => Adjacent(p.state, n.state) && g.IsOpen(n.state) && n.state != g.start && ValidChain(g, p)
  }

  /** The cells of n's chain from the first step after the root down to n. */
  function PathOf(n: Node): seq<Pos>
    decreases n
  {
    match n.parent
    case None => []
    case Some(p) => PathOf(p) + [n.state]
  }

  /** The cells of n's chain in the order a walk up the parent links meets them, root left out. */
  function BackTrace(n: Node): seq<Pos>
    decreases n
  {
    match n.parent
    case None => []
    case Some(p) => [n.state] + BackTrace(p)
  }

  function Reversed<T>(s: seq<T>): seq<T>
  {
    if s == [] then [] else Reversed(s[1..]) + [s[0]]
  }

  /** Reversing what the walk up the parent links collected gives the path in start-to-goal order. */
  lemma {:induction false} ReversedBackTrace(n: Node)
    ensures Reversed(BackTrace(n)) == PathOf(n)
    decreases n
  {
    match n.parent
    case None =>
    case Some(p) =>
      ReversedBackTrace(p);
      assert ([n.state] + BackTrace(p))[1..] == BackTrace(p);
  }

  /** The path of a valid chain is a walk from the start that ends at the chain's last cell and avoids the start. */
  lemma {:induction false} ChainIsWalk(g: Grid, n: Node)
    requires g.Rectangular() && ValidChain(g, n) && n.parent.Some?
    ensures IsWalk(g, g.start, PathOf(n))
    ensures PathOf(n)[|PathOf(n)| - 1] == n.state
    ensures g.start !in PathOf(n)
    decreases n
  {
    var p := n.parent.value;
    if p.parent.None? {
      assert PathOf(n) == [n.state];
    } else {
      ChainIsWalk(g, p);
      var q := PathOf(p);
      var path := PathOf(n);
      assert path == q + [n.state];
      forall i, j | 0 <= i < |path| && j == i + 1 && j < |path|
        ensures Adjacent(path[i], path[j])
      {
        if j < |q| {
          assert path[i] == q[i] && path[j] == q[j];
        } else {
          assert path[i] == p.state;
        }
      }
      forall i | 0 <= i < |path|
        ensures g.IsOpen(path[i])
      {
        if i < |q| {
          assert path[i] == q[i];
        }
      }
    }
  }

  /**
   * A chain that reaches the goal gives a solution path that avoids the
   * start, or the empty path when the start is the goal.
   */
  lemma GoalChainIsSolution(g: Grid, n: Node)
    requires g.Rectangular() && ValidChain(g, n) && n.state == g.goal
    ensures g.start == g.goal ==> PathOf(n) == []
    ensures g.start != g.goal ==> IsSolution(g, PathOf(n)) && g.start !in PathOf(n)
  {
    if g.start != g.goal {
      ChainIsWalk(g, n);
    } else if n.parent.Some? {
      assert false;
    }
  }

  /** Every open cell one step from x is explored or waiting in the frontier. */
  ghost predicate Covered(g: Grid, explored: set<Pos>, nodes: seq<Node>, x: Pos)
    requires g.Rectangular()
  {
    forall y :: Adjacent(x, y) && g.IsOpen(y) ==> y in explored || HasState(nodes, y)
  }

  /** The frontier holds valid chains at distinct, unexplored cells. */
  ghost predicate FrontierSound(g: Grid, explored: set<Pos>, nodes: seq<Node>)
    requires g.Rectangular()
  {
    (forall i :: 0 <= i < |nodes| ==> ValidChain(g, nodes[i]) && nodes[i].state !in explored) &&
    (forall i, j :: 0 <= i < j < |nodes| ==> nodes[i].state != nodes[j].state)
  }

  /** pushed lists every cell ever put in the frontier once; each is explored or still waiting. */
  ghost predicate Tracked(pushed: seq<Pos>, explored: set<Pos>, nodes: seq<Node>)
  {
    Distinct(pushed) &&
    (forall x :: x in explored ==> x in pushed) &&
    (forall i :: 0 <= i < |nodes| ==> nodes[i].state in pushed) &&
    (forall k :: 0 <= k < |pushed| ==> pushed[k] in explored || HasState(nodes, pushed[k]))
  }

  /** Adding a node to the frontier keeps every cell it covered covered, and covers the new cell. */
  lemma AddKeepsCovered(g: Grid, explored: set<Pos>, nodes: seq<Node>, n: Node)
    requires g.Rectangular()
    ensures forall s :: HasState(nodes, s) ==> HasState(nodes + [n], s)
    ensures HasState(nodes + [n], n.state)
    ensures forall x :: Covered(g, explored, nodes, x) ==> Covered(g, explored, nodes + [n], x)
  {
    HasStateConcat(nodes, [n]);
    assert [n][0].state == n.state;
  }

  lemma AddKeepsSound(g: Grid, explored: set<Pos>, nodes: seq<Node>, n: Node)
    requires g.Rectangular()
    requires FrontierSound(g, explored, nodes)
    requires ValidChain(g, n) && n.state !in explored && !HasState(nodes, n.state)
    ensures FrontierSound(g, explored, nodes + [n])
  {
    var all := nodes + [n];
    forall i, j | 0 <= i < j < |all|
      ensures all[i].state != all[j].state
    {
      if j == |nodes| {
        assert all[i] == nodes[i];
      }
    }
  }

  lemma AddKeepsTracked(pushed: seq<Pos>, explored: set<Pos>, nodes: seq<Node>, n: Node)
    requires Tracked(pushed, explored, nodes)
    requires n.state !in explored && !HasState(nodes, n.state)
    ensures Tracked(pushed + [n.state], explored, nodes + [n])
  {
    HasStateConcat(nodes, [n]);
    assert [n][0].state == n.state;
    var e := pushed + [n.state];
    var all := nodes + [n];
    assert n.state !in pushed;
    forall k | 0 <= k < |e|
      ensures e[k] in explored || HasState(all, e[k])
    {
      if k < |pushed| {
        assert e[k] == pushed[k];
      }
    }
    forall i | 0 <= i < |all|
      ensures all[i].state in e
    {
      if i < |nodes| {
        assert all[i] == nodes[i];
      }
    }
  }

  /**
   * What holds between two iterations of the search loop: a sound frontier,
   * the goal not yet explored, the start explored once the root has been
   * taken out, every explored cell's neighbours explored or waiting, and
   * pushed listing each cell ever put in the frontier exactly once.
   */
  ghost predicate LoopInvariant(g: Grid, explored: set<Pos>, nodes: seq<Node>, pushed: seq<Pos>, taken: nat)
    requires g.Valid()
  {
    FrontierSound(g, explored, nodes) &&
    g.goal !in explored &&
    (g.start in explored || nodes == [Node(g.start, None)]) &&
    explored <= CellsOf(g.height, g.width) &&
    (forall x :: x in explored ==> Covered(g, explored, nodes, x)) &&
    Tracked(pushed, explored, nodes) &&
    (forall k :: 0 <= k < |pushed| ==> g.InRange(pushed[k])) &&
    taken + |nodes| == |pushed|
  }

  /**
   * What holds after node has been taken out and its cell marked explored,
   * before its neighbours are offered: the loop invariant, except that the
   * neighbours of node's cell need not be covered yet.
   */
  ghost predicate Expanding(g: Grid, explored: set<Pos>, nodes: seq<Node>, pushed: seq<Pos>, taken: nat, node: Node)
    requires g.Valid()
  {
    ValidChain(g, node) && node.state in explored && g.start in explored &&
    FrontierSound(g, explored, nodes) &&
    g.goal !in explored &&
    explored <= CellsOf(g.height, g.width) &&
    (forall x :: x in explored && x != node.state ==> Covered(g, explored, nodes, x)) &&
    Tracked(pushed, explored, nodes) &&
    (forall k :: 0 <= k < |pushed| ==> g.InRange(pushed[k])) &&
    taken + |nodes| == |pushed|
  }

  lemma InitialInvariant(g: Grid)
    requires g.Valid()
    ensures LoopInvariant(g, {}, [Node(g.start, None)], [g.start], 0)
  {
    assert [Node(g.start, None)][0].state == g.start;
  }

  /** The node taken out of the frontier is a valid chain at an unexplored in-range cell. */
  lemma TakenNode(g: Grid, explored: set<Pos>, nodes: seq<Node>, node: Node, pushed: seq<Pos>, taken: nat)
    requires g.Valid()
    requires LoopInvariant(g, explored, nodes + [node], pushed, taken)
    ensures ValidChain(g, node) && node.state !in explored && g.InRange(node.state)
    ensures taken + 1 <= |pushed|
  {
    assert (nodes + [node])[|nodes|] == node;
  }

  lemma TakeKeepsSound(g: Grid, explored: set<Pos>, nodes: seq<Node>, node: Node)
    requires g.Rectangular()
    requires FrontierSound(g, explored, nodes + [node])
    ensures FrontierSound(g, explored + {node.state}, nodes)
  {
    var all := nodes + [node];
    assert all[|nodes|] == node;
    forall i | 0 <= i < |nodes|
      ensures ValidChain(g, nodes[i]) && nodes[i].state !in explored + {node.state}
    {
      assert all[i] == nodes[i];
    }
    forall i, j | 0 <= i < j < |nodes|
      ensures nodes[i].state != nodes[j].state
    {
      assert all[i] == nodes[i] && all[j] == nodes[j];
    }
  }

  lemma TakeKeepsTracked(pushed: seq<Pos>, explored: set<Pos>, nodes: seq<Node>, node: Node)
    requires Tracked(pushed, explored, nodes + [node])
    ensures Tracked(pushed, explored + {node.state}, nodes)
  {
    var all := nodes + [node];
    HasStateConcat(nodes, [node]);
    assert all[|nodes|] == node;
    forall i | 0 <= i < |nodes|
      ensures nodes[i].state in pushed
    {
      assert all[i] == nodes[i];
    }
  }

  lemma TakeKeepsCovered(g: Grid, explored: set<Pos>, nodes: seq<Node>, node: Node)
    requires g.Rectangular()
    requires forall x :: x in explored ==> Covered(g, explored, nodes + [node], x)
    ensures forall x :: x in explored ==> Covered(g, explored + {node.state}, nodes, x)
  {
    HasStateConcat(nodes, [node]);
    assert [node][0] == node;
  }

  /** Taking node out and marking its cell explored leads to an expanding state, and explores a new cell. */
  lemma TakeAndExplore(g: Grid, explored: set<Pos>, nodes: seq<Node>, node: Node, pushed: seq<Pos>, taken: nat)
    requires g.Valid()
    requires LoopInvariant(g, explored, nodes + [node], pushed, taken)
    requires node.state != g.goal
    ensures Expanding(g, explored + {node.state}, nodes, pushed, taken + 1, node)
    ensures var cells := CellsOf(g.height, g.width);
            |cells - (explored + {node.state})| < |cells - explored|
  {
    var e := explored + {node.state};
    var cells := CellsOf(g.height, g.width);
    TakenNode(g, explored, nodes, node, pushed, taken);
    TakeKeepsSound(g, explored, nodes, node);
    TakeKeepsTracked(pushed, explored, nodes, node);
    TakeKeepsCovered(g, explored, nodes, node);
    assert g.start in e by {
      if g.start !in explored {
        assert node == (nodes + [node])[0];
      }
    }
    assert node.state == Pos(node.state.row, node.state.col);
    assert cells - e == (cells - explored) - {node.state};
  }

  /**
   * When the frontier runs empty the explored cells are closed, so no walk
   * reaches the goal; and the cells put in the frontier were distinct.
   */
  lemma Exhausted(g: Grid, explored: set<Pos>, pushed: seq<Pos>, taken: nat)
    requires g.Valid()
    requires LoopInvariant(g, explored, [], pushed, taken)
    ensures forall p :: !IsSolution(g, p)
    ensures Distinct(pushed) && forall k :: 0 <= k < |pushed| ==> g.InRange(pushed[k])
    ensures taken == |pushed| <= g.height * g.width
    ensures CellsIn(pushed) == explored
    ensures g.start in pushed && g.goal !in pushed
    ensures Closed(g, CellsIn(pushed))
  {
    assert CellsIn(pushed) == explored by {
      forall x | x in explored
        ensures x in CellsIn(pushed)
      {
        var k :| 0 <= k < |pushed| && pushed[k] == x;
      }
    }
    ClosedSetBlocksGoal(g, explored);
    EnqueuedBound(g, pushed);
  }

  /**
   * When the node taken out is at the goal, its chain is the solution; and
   * the cells put in the frontier were distinct.
   */
  lemma GoalTaken(g: Grid, explored: set<Pos>, nodes: seq<Node>, node: Node, pushed: seq<Pos>, taken: nat)
    requires g.Valid()
    requires LoopInvariant(g, explored, nodes + [node], pushed, taken)
    requires node.state == g.goal
    ensures g.start == g.goal ==> PathOf(node) == []
    ensures g.start != g.goal ==> IsSolution(g, PathOf(node)) && g.start !in PathOf(node)
    ensures Distinct(pushed) && forall k :: 0 <= k < |pushed| ==> g.InRange(pushed[k])
    ensures taken + 1 <= |pushed| <= g.height * g.width
    ensures g.goal in pushed
  {
    TakenNode(g, explored, nodes, node, pushed, taken);
    assert (nodes + [node])[|nodes|] == node;
    GoalChainIsSolution(g, node);
    EnqueuedBound(g, pushed);
  }

  /** The cells listed in s. */
  ghost function CellsIn(s: seq<Pos>): set<Pos>
  {
    set k | 0 <= k < |s| :: s[k]
  }

  /** Each cell was put in the frontier at most once, so there were at most height * width of them. */
  lemma EnqueuedBound(g: Grid, pushed: seq<Pos>)
    requires Distinct(pushed) && forall k :: 0 <= k < |pushed| ==> g.InRange(pushed[k])
    ensures |pushed| <= g.height * g.width
  {
    var cells := CellsOf(g.height, g.width);
    forall k | 0 <= k < |pushed|
      ensures pushed[k] in cells
    {
      var p := pushed[k];
      assert p == Pos(p.row, p.col);
    }
    DistinctBound(pushed, cells);
    CellsCount(g.height, g.width);
  }

  /**
   * The frontier after offering each cell of cells in turn: a cell no node
   * of the frontier holds and that is not explored is added as a child of parent.
   */
  function Offered(nodes: seq<Node>, parent: Node, cells: seq<Pos>, explored: set<Pos>): seq<Node>
    decreases |cells|
  {
    if cells == [] then nodes
    else
      var next := if !HasState(nodes, cells[0]) && cells[0] !in explored
                  then nodes + [Node(cells[0], Some(parent))] else nodes;
      Offered(next, parent, cells[1..], explored)
  }

  class Maze {
    const grid: Grid
    /** The path found by the last successful search (None before one). */
    var solutionPath: Option<seq<Pos>>

    predicate Valid()
    {
      grid.Valid()
    }

    constructor (g: Grid)
      requires g.Valid()
      ensures grid == g && solutionPath == None
    {
      grid := g;
      solutionPath := None;
    }

    /**
     * Builds a maze from the lines of a maze file, failing as the decoder
     * does; the new maze has no recorded path.
     */
    static method Load(lines: seq<string>) returns (r: Result<Maze, LoadError>)
      ensures r.Err? <==> Decode(lines).Err?
      ensures r.Err? ==> r.error == Decode(lines).error
      ensures r.Ok? ==> fresh(r.value) && r.value.grid == Decode(lines).value && r.value.solutionPath == None
      ensures r.Ok? ==> r.value.Valid()
    {
      var decoded := Decode(lines);
      if decoded.Err? {
        return Err(decoded.error);
      }
      var maze := new Maze(decoded.value);
      return Ok(maze);
    }

    /** The open cells up, down, left and right of p, in that order. */
    method Neighbors(p: Pos) returns (result: seq<Pos>)
      requires Valid()
      ensures result == OpenNeighbors(grid, p)
    {
      var candidates := Candidates(p);
      result := [];
      var i := 0;
      while i < |candidates|
        invariant 0 <= i <= |candidates|
        invariant result == KeepOpen(grid, candidates[..i])
      {
        var r, c := candidates[i].row, candidates[i].col;
        KeepOpenSnoc(grid, candidates, i);
        if 0 <= r < grid.height && 0 <= c < grid.width && !grid.walls[r][c] {
          result := result + [candidates[i]];
        }
        i := i + 1;
      }
      assert candidates[..i] == candidates;
    }

    /** Whether the found path passes through cell (row, col). */
    method ContainsInSolution(row: int, col: int) returns (b: bool)
      requires solutionPath.Some?
      ensures b <==> Pos(row, col) in solutionPath.value
    {
      var path := solutionPath.value;
      var i := 0;
      while i < |path|
        invariant 0 <= i <= |path|
        invariant forall k :: 0 <= k < i ==> path[k] != Pos(row, col)
      {
        if path[i].row == row && path[i].col == col {
          return true;
        }
        i := i + 1;
      }
      return false;
    }

    /**
     * Depth-first search from the start. Succeeds exactly when some walk
     * reaches the goal, and then records a path that starts one step from
     * the start and ends at the goal; otherwise fails and records nothing.
     * The ghost result is the frontier the search ran on: it records the
     * cells ever put in it (each at most once) and how many nodes were
     * taken out. On failure every recorded cell was taken out, and the
     * recorded cells hold the start, not the goal, and are closed under
     * open neighbours; on success the goal is among them.
     */
    method Solve() returns (outcome: Outcome, ghost searched: Frontier)
      requires Valid()
      modifies this
      ensures outcome == Solved ==>
                solutionPath.Some? &&
                (grid.start == grid.goal ==> solutionPath.value == []) &&
                (grid.start != grid.goal ==> IsSolution(grid, solutionPath.value) && grid.start !in solutionPath.value)
      ensures outcome == NoSolutionFound ==> solutionPath == old(solutionPath) && forall p :: !IsSolution(grid, p)
      ensures fresh(searched) && searched.policy == Stack
      ensures outcome == NoSolutionFound ==>
                searched.nodes == [] && searched.taken == |searched.pushed| &&
                grid.start in searched.pushed && grid.goal !in searched.pushed &&
                Closed(grid, CellsIn(searched.pushed))
      ensures outcome == Solved ==> grid.goal in searched.pushed && 0 < searched.taken
      ensures Distinct(searched.pushed) && forall k :: 0 <= k < |searched.pushed| ==> grid.InRange(searched.pushed[k])
      ensures searched.taken <= |searched.pushed| <= grid.height * grid.width
    {
      var frontier := new Frontier(Stack);
      searched := frontier;
      frontier.Add(Node(grid.start, None));
      var explored: set<Pos> := {};
      InitialInvariant(grid);
      ghost var cells := CellsOf(grid.height, grid.width);

      while true
        invariant frontier.policy == Stack
        invariant solutionPath == old(solutionPath)
        invariant LoopInvariant(grid, explored, frontier.nodes, frontier.pushed, frontier.taken)
        decreases |cells - explored|
      {
        var isEmpty := frontier.Empty();
        if isEmpty {
          Exhausted(grid, explored, frontier.pushed, frontier.taken);
          return NoSolutionFound, searched;
        }
        ghost var before := frontier.nodes;
        ghost var count := frontier.taken;
        var removed := frontier.Remove();
        var node := removed.value;
        StackSplit(before);

        if node.state == grid.goal {
          GoalTaken(grid, explored, frontier.nodes, node, frontier.pushed, count);
          var path := Backtrack(node);
          solutionPath := Some(path);
          return Solved, searched;
        }

        TakeAndExplore(grid, explored, frontier.nodes, node, frontier.pushed, count);
        explored := explored + {node.state};
        var neighbors := Neighbors(node.state);
        PushNeighbors(frontier, node, neighbors, explored);
      }
    }

    /**
     * Offers each cell of neighbors, in order, to the frontier: a cell that
     * no frontier node holds and that is not explored gets a new child node
     * of node at the end of the frontier.
     */
    method PushNeighbors(frontier: Frontier, node: Node, neighbors: seq<Pos>, explored: set<Pos>)
      requires Valid()
      requires neighbors == OpenNeighbors(grid, node.state)
      requires Expanding(grid, explored, frontier.nodes, frontier.pushed, frontier.taken, node)
      modifies frontier
      ensures frontier.nodes == Offered(old(frontier.nodes), node, neighbors, explored)
      ensures frontier.taken == old(frontier.taken)
      ensures LoopInvariant(grid, explored, frontier.nodes, frontier.pushed, frontier.taken)
    {
      OpenNeighborsExact(grid, node.state);
      var k := 0;
      while k < |neighbors|
        invariant 0 <= k <= |neighbors|
        invariant Offered(frontier.nodes, node, neighbors[k..], explored) ==
                  Offered(old(frontier.nodes), node, neighbors, explored)
        invariant frontier.taken == old(frontier.taken)
        invariant Expanding(grid, explored, frontier.nodes, frontier.pushed, frontier.taken, node)
        invariant forall j :: 0 <= j < k ==> neighbors[j] in explored || HasState(frontier.nodes, neighbors[j])
      {
        var state := neighbors[k];
        assert neighbors[k..][1..] == neighbors[k + 1..];
        var inFrontier := frontier.ContainsState(state);
        if !inFrontier && state !in explored {
          ghost var oldNodes := frontier.nodes;
          ghost var oldPushed := frontier.pushed;
          var child := Node(state, Some(node));
          assert state in neighbors;
          assert ValidChain(grid, child);
          frontier.Add(child);
          AddKeepsCovered(grid, explored, oldNodes, child);
          AddKeepsSound(grid, explored, oldNodes, child);
          AddKeepsTracked(oldPushed, explored, oldNodes, child);
        }
        assert state in explored || HasState(frontier.nodes, state);
        k := k + 1;
      }
    }

    /**
     * Walks the parent links up from node, collecting each cell except the
     * root's, and reverses the collected cells into start-to-node order.
     */
    static method Backtrack(node: Node) returns (path: seq<Pos>)
      ensures path == PathOf(node)
    {
      var collected: seq<Pos> := [];
      var cur := node;
      while cur.parent.Some?
        invariant collected + BackTrace(cur) == BackTrace(node)
        decreases cur
      {
        assert BackTrace(cur) == [cur.state] + BackTrace(cur.parent.value);
        collected := collected + [cur.state];
        cur := cur.parent.value;
      }
      assert collected == BackTrace(node);
      ReversedBackTrace(node);
      path := Reversed(collected);
    }
  }
}
