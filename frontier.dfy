/**
 * Search nodes and the frontier that holds the nodes still to be expanded.
 * The source has a stack-ordered frontier and a queue-ordered subclass that
 * only overrides removal; here they are one class whose removal order is a
 * constant policy fixed at construction.
 */
module Frontiers {
  import opened Wrappers
  import opened Grid

  /**
   * A search-tree node: the cell it stands for and the node it was reached
   * from, None for the root. Nodes are never changed after creation, so a
   * value with its parent chain inside stands for the source's linked object.
   */
  datatype Node = Node(state: Pos, parent: Option<Node>)

  /** Which end removal takes from: the last added (Stack) or the first added (Queue). */
  datatype Policy = Stack | Queue

  datatype FrontierError = EmptyFrontier

  /** Some node in nodes is at cell s. */
  predicate HasState(nodes: seq<Node>, s: Pos)
  {
    exists i :: 0 <= i < |nodes| && nodes[i].state == s
  }

  lemma HasStateConcat(a: seq<Node>, b: seq<Node>)
    ensures forall s :: HasState(a + b, s) <==> HasState(a, s) || HasState(b, s)
  {
    forall s | HasState(a + b, s)
      ensures HasState(a, s) || HasState(b, s)
    {
      var i :| 0 <= i < |a + b| && (a + b)[i].state == s;
      if i >= |a| {
        assert b[i - |a|].state == s;
      }
    }
    forall s | HasState(a, s)
      ensures HasState(a + b, s)
    {
      var i :| 0 <= i < |a| && a[i].state == s;
      assert (a + b)[i].state == s;
    }
    forall s | HasState(b, s)
      ensures HasState(a + b, s)
    {
      var i :| 0 <= i < |b| && b[i].state == s;
      assert (a + b)[|a| + i].state == s;
    }
  }

  /** The node removal takes from a non-empty frontier under the given policy. */
  function Next(policy: Policy, nodes: seq<Node>): Node
    requires nodes != []
  {
    match policy
    case Stack => nodes[|nodes| - 1]
    case Queue => nodes[0]
  }

  /** What is left of a non-empty frontier after removal under the given policy. */
  function Rest(policy: Policy, nodes: seq<Node>): seq<Node>
    requires nodes != []
  {
    match policy
    case Stack => nodes[..|nodes| - 1]
    case Queue => nodes[1..]
  }

  /** Last in, first out: removal undoes the latest addition. */
  lemma StackLaw(nodes: seq<Node>, n: Node)
    ensures Next(Stack, nodes + [n]) == n && Rest(Stack, nodes + [n]) == nodes
  {
    assert (nodes + [n])[..|nodes|] == nodes;
  }

  /** Under the stack policy the frontier is what is left followed by the node taken out. */
  lemma StackSplit(nodes: seq<Node>)
    requires nodes != []
    ensures nodes == Rest(Stack, nodes) + [Next(Stack, nodes)]
  {
  }

  /** First in, first out: on a non-empty frontier an addition does not change which node comes out. */
  lemma QueueLaw(nodes: seq<Node>, n: Node)
    requires nodes != []
    ensures Next(Queue, nodes + [n]) == nodes[0] && Rest(Queue, nodes + [n]) == Rest(Queue, nodes) + [n]
  {
    assert (nodes + [n])[1..] == nodes[1..] + [n];
  }

  /** Under either policy removal takes out exactly one node and keeps the others. */
  lemma RemovalIsPermutation(policy: Policy, nodes: seq<Node>)
    requires nodes != []
    ensures |Rest(policy, nodes)| == |nodes| - 1
    ensures multiset(Rest(policy, nodes)) + multiset{Next(policy, nodes)} == multiset(nodes)
  {
    match policy
    case Stack =>
      assert nodes == nodes[..|nodes| - 1] + [nodes[|nodes| - 1]];
    case Queue =>
      assert nodes == [nodes[0]] + nodes[1..];
  }

  class Frontier {
    const policy: Policy
    /** The pending nodes, oldest first. */
    var nodes: seq<Node>
    /** The cells of every node ever added, in order (bookkeeping for proofs only). */
    ghost var pushed: seq<Pos>
    /** How many nodes have been taken out (bookkeeping for proofs only). */
    ghost var taken: nat

    constructor (policy: Policy)
      ensures this.policy == policy && nodes == [] && pushed == [] && taken == 0
    {
      this.policy := policy;
      nodes := [];
      pushed := [];
      taken := 0;
    }

    /** Appends node at the end, without checking for a node at the same cell. */
    method Add(node: Node)
      modifies this
      ensures nodes == old(nodes) + [node]
      ensures pushed == old(pushed) + [node.state] && taken == old(taken)
    {
      nodes := nodes + [node];
      pushed := pushed + [node.state];
    }

    /** Scans the frontier for a node at cell s. */
    method ContainsState(s: Pos) returns (b: bool)
      ensures b <==> HasState(nodes, s)
    {
      var i := 0;
      while i < |nodes|
        invariant 0 <= i <= |nodes|
        invariant forall k :: 0 <= k < i ==> nodes[k].state != s
      {
        if nodes[i].state == s {
          return true;
        }
        i := i + 1;
      }
      return false;
    }

    method Empty() returns (b: bool)
      ensures b <==> |nodes| == 0
    {
      b := |nodes| == 0;
    }

    /**
     * Fails on an empty frontier; otherwise takes out and returns the last
     * added node (Stack) or the first added node (Queue).
     */
    method Remove() returns (r: Result<Node, FrontierError>)
      modifies this
      ensures old(nodes) == [] ==> r == Err(EmptyFrontier) && nodes == old(nodes) && taken == old(taken)
      ensures old(nodes) != [] ==> r == Ok(Next(policy, old(nodes))) && nodes == Rest(policy, old(nodes)) &&
                                   taken == old(taken) + 1
      ensures pushed == old(pushed)
    {
      if nodes == [] {
        return Err(EmptyFrontier);
      }
      taken := taken + 1;
      match policy
      case Stack =>
        r := Ok(nodes[|nodes| - 1]);
        nodes := nodes[..|nodes| - 1];
      case Queue =>
        r := Ok(nodes[0]);
        nodes := nodes[1..];
    }
  }
}
