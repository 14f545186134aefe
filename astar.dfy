/** AStar: collect the available pills and power pills as targets, search
    best-first from Pac-Man's node for the nearest of them, and head there;
    with no target, the random move of RandomWalk. The open set is a
    PriorityQueue ordered by fScore: `poll` returns an element of least
    fScore, and which one among equals is left open. */
module AStar {
  import opened Engine
  import RandomWalk

  /** The entries of `xs`, in order, whose isPillStillAvailable at the same
      position is TRUE. */
  function Available(xs: seq<int>, available: int -> Option<bool>): seq<int>
  {
    if xs == [] then []
    else
      Available(xs[..|xs| - 1], available) +
        (if available(|xs| - 1) == Some(true) then [xs[|xs| - 1]] else [])
  }

  /** A node index is collected exactly when it sits at a position whose
      flag is TRUE. */
  lemma {:induction false} AvailableMembers(xs: seq<int>, available: int -> Option<bool>, x: int)
    ensures x in Available(xs, available) <==>
      exists i :: 0 <= i < |xs| && xs[i] == x && available(i) == Some(true)
  {
    if xs != [] {
      var init := xs[..|xs| - 1];
      AvailableMembers(init, available, x);
      if x in Available(xs, available) && x !in Available(init, available) {
        assert xs[|xs| - 1] == x && available(|xs| - 1) == Some(true);
      }
      if exists i :: 0 <= i < |xs| && xs[i] == x && available(i) == Some(true) {
        var i :| 0 <= i < |xs| && xs[i] == x && available(i) == Some(true);
        if i < |xs| - 1 {
          assert init[i] == x;
        }
      }
    }
  }

  /** The target list of getMove: available pills, then power pills whose
      *pill* flag at the same position is TRUE. */
  function Targets(pills: seq<int>, powerPills: seq<int>, available: int -> Option<bool>): seq<int>
  {
    Available(pills, available) + Available(powerPills, available)
  }

  /** The two collecting loops of getMove. */
  method CollectTargets(pills: seq<int>, powerPills: seq<int>, available: int -> Option<bool>)
    returns (targets: seq<int>)
    ensures targets == Targets(pills, powerPills, available)
  {
    targets := [];
    for i := 0 to |pills|
      invariant targets == Available(pills[..i], available)
    {
      assert pills[..i + 1][..i] == pills[..i];
      var pillStillAvailable := available(i);
      if pillStillAvailable.Some? && pillStillAvailable.value {
        targets := targets + [pills[i]];
      }
    }
    assert pills[..|pills|] == pills;
    ghost var fromPills := targets;
    for i := 0 to |powerPills|
      invariant targets == fromPills + Available(powerPills[..i], available)
    {
      assert powerPills[..i + 1][..i] == powerPills[..i];
      var pillStillAvailable := available(i);
      if pillStillAvailable.Some? && pillStillAvailable.value {
        targets := targets + [powerPills[i]];
      }
    }
    assert powerPills[..|powerPills|] == powerPills;
  }

  /** containsTarget */
  method ContainsTarget(nodeIndex: int, targets: seq<int>) returns (found: bool)
    ensures found <==> nodeIndex in targets
  {
    for i := 0 to |targets|
      invariant nodeIndex !in targets[..i]
    {
      if nodeIndex == targets[i] {
        return true;
      }
      assert targets[..i + 1] == targets[..i] + [targets[i]];
    }
    assert targets[..|targets|] == targets;
    return false;
  }

  datatype AStarNode = AStarNode(nodeIndex: int, parent: Option<AStarNode>, gScore: int, fScore: int)

  /** compareTo: Integer.compare on the fScores. */
  function CompareTo(a: AStarNode, b: AStarNode): (r: int)
    ensures -1 <= r <= 1
    ensures r < 0 <==> a.fScore < b.fScore
    ensures r == 0 <==> a.fScore == b.fScore
  {
    if a.fScore < b.fScore then -1 else if a.fScore == b.fScore then 0 else 1
  }

  /** Position `k` of the open set holds a node that compares at most equal
      to every other: what poll() may take. */
  predicate IsLeastAt(open: seq<AStarNode>, k: int)
  {
    0 <= k < |open| && forall j :: 0 <= j < |open| ==> CompareTo(open[k], open[j]) <= 0
  }

  /** A position of least fScore in a non-empty open set. */
  function LeastF(open: seq<AStarNode>): (k: nat)
    requires |open| > 0
    ensures IsLeastAt(open, k)
  {
    if |open| == 1 then 0
    else
      var k := LeastF(open[1..]) + 1;
      assert forall j :: 1 <= j < |open| ==> open[j] == open[1..][j - 1];
      if open[0].fScore <= open[k].fScore then 0 else k
  }

  /** The node indices 0 .. n-1. */
  ghost function NodesBelow(n: nat): (r: set<int>)
    ensures forall x :: x in r <==> 0 <= x < n
  {
    if n == 0 then {} else NodesBelow(n - 1) + {n - 1}
  }

  /** A node of the open set lies at the end of a path of maze moves from
      `current`: its gScore is the length of that path, and its fScore the
      gScore plus the distance to the first target. */
  ghost predicate Scored(env: Env, current: int, target: int, o: AStarNode)
    decreases o
  {
    && o.fScore == o.gScore + env.distance(o.nodeIndex, target)
    && match o.parent
       case None => o.nodeIndex == current && o.gScore == 0
       case Some(p) =>
         && o.gScore == p.gScore + 1
         && (exists m :: m in env.possibleMovesFrom(p.nodeIndex) && env.neighbour(p.nodeIndex, m) == o.nodeIndex)
         && Scored(env, current, target, p)
  }

  /** Every node of the open set is a maze node with a scored path. */
  ghost predicate OpenOk(env: Env, current: int, target: int, open: seq<AStarNode>)
  {
    forall o :: o in open ==> 0 <= o.nodeIndex < env.nodeCount && Scored(env, current, target, o)
  }

  /** The closed list holds distinct maze nodes that are not targets;
      `closedNodes` is its set of elements. */
  ghost predicate ClosedOk(env: Env, targets: seq<int>, closed: seq<int>, closedNodes: set<int>)
  {
    && Distinct(closed)
    && (forall c :: c in closed ==> c !in targets && 0 <= c < env.nodeCount)
    && (forall c :: c in closedNodes <==> c in closed)
  }

  /** Closing a new non-target maze node keeps the closed list in shape and
      leaves fewer maze nodes open. */
  lemma Close(env: Env, targets: seq<int>, closed: seq<int>, closedNodes: set<int>, x: int)
    requires ClosedOk(env, targets, closed, closedNodes)
    requires x !in closed && x !in targets && 0 <= x < env.nodeCount
    ensures ClosedOk(env, targets, closed + [x], closedNodes + {x})
    ensures |NodesBelow(env.nodeCount) - (closedNodes + {x})| < |NodesBelow(env.nodeCount) - closedNodes|
  {
    AppendDistinct(closed, x);
    Shrinks(NodesBelow(env.nodeCount), closedNodes, x);
  }

  /** Removing the polled node keeps the open set in shape. */
  lemma Poll(env: Env, current: int, target: int, open: seq<AStarNode>, k: nat)
    requires OpenOk(env, current, target, open) && k < |open|
    ensures OpenOk(env, current, target, open[..k] + open[k + 1..])
    ensures 0 <= open[k].nodeIndex < env.nodeCount && Scored(env, current, target, open[k])
  {
    assert open[k] in open;
    forall o | o in open[..k] + open[k + 1..]
      ensures o in open
    {
      if o in open[..k] {
        var j :| 0 <= j < k && open[..k][j] == o;
        assert open[j] == o;
      } else {
        var j :| 0 <= j < |open| - k - 1 && open[k + 1..][j] == o;
        assert open[k + 1 + j] == o;
      }
    }
  }

  /** The nodes the loop over getPossibleMoves(node) adds to the open set
      for the moves `moves`: one per successor not yet closed, with g one
      more than the node's and f that g plus the successor's distance to
      the target. */
  function Successors(env: Env, target: int, node: AStarNode, closed: seq<int>, moves: seq<Move>): seq<AStarNode>
  {
    if moves == [] then []
    else Successors(env, target, node, closed, moves[..|moves| - 1]) + Successor(env, target, node, closed, moves[|moves| - 1])
  }

  /** The successor through move `m`, unless its node is closed: one more
      step, scored by the distance to `target`. */
  function Successor(env: Env, target: int, node: AStarNode, closed: seq<int>, m: Move): seq<AStarNode>
  {
    var s := env.neighbour(node.nodeIndex, m);
    if s in closed then []
    else [AStarNode(s, Some(node), node.gScore + 1, node.gScore + 1 + env.distance(s, target))]
  }

  /** Successors of an open maze node are open maze nodes, and none of them
      is closed. */
  lemma {:induction false} SuccessorsOk(env: Env, current: int, target: int, node: AStarNode,
                                        closed: seq<int>, moves: seq<Move>)
    requires ClosedMaze(env)
    requires 0 <= node.nodeIndex < env.nodeCount && Scored(env, current, target, node)
    requires forall m :: m in moves ==> m in env.possibleMovesFrom(node.nodeIndex)
    ensures OpenOk(env, current, target, Successors(env, target, node, closed, moves))
    ensures forall o :: o in Successors(env, target, node, closed, moves) ==> o.nodeIndex !in closed
  {
    if moves != [] {
      var init := moves[..|moves| - 1];
      assert forall m :: m in init ==> m in moves;
      SuccessorsOk(env, current, target, node, closed, init);
      var m := moves[|moves| - 1];
      assert m in moves;
      SuccessorOk(env, current, target, node, closed, m);
      OpenOkAppend(env, current, target, Successors(env, target, node, closed, init),
                   Successor(env, target, node, closed, m));
    }
  }

  /** The successor of a scored maze node through a move the maze offers
      is a scored maze node that is not closed. */
  lemma SuccessorOk(env: Env, current: int, target: int, node: AStarNode, closed: seq<int>, m: Move)
    requires ClosedMaze(env) && 0 <= node.nodeIndex < env.nodeCount && Scored(env, current, target, node)
    requires m in env.possibleMovesFrom(node.nodeIndex)
    ensures OpenOk(env, current, target, Successor(env, target, node, closed, m))
    ensures forall o :: o in Successor(env, target, node, closed, m) ==> o.nodeIndex !in closed
  {
    var s := env.neighbour(node.nodeIndex, m);
    if s !in closed {
      var child := AStarNode(s, Some(node), node.gScore + 1, node.gScore + 1 + env.distance(s, target));
      assert Scored(env, current, target, child);
      assert Successor(env, target, node, closed, m) == [child];
    }
  }

  lemma OpenOkAppend(env: Env, current: int, target: int, a: seq<AStarNode>, b: seq<AStarNode>)
    requires OpenOk(env, current, target, a) && OpenOk(env, current, target, b)
    ensures OpenOk(env, current, target, a + b)
  {
    forall o | o in a + b
      ensures 0 <= o.nodeIndex < env.nodeCount && Scored(env, current, target, o)
    {
      assert o in a || o in b;
    }
  }

  /** The loop over getPossibleMoves(node) in findNearestTarget. */
  method AddSuccessors(env: Env, target: int, node: AStarNode, closed: seq<int>, openSet: seq<AStarNode>)
    returns (updated: seq<AStarNode>)
    ensures updated == openSet + Successors(env, target, node, closed, env.possibleMovesFrom(node.nodeIndex))
  {
    updated := openSet;
    var moves := env.possibleMovesFrom(node.nodeIndex);
    ghost var found: seq<AStarNode> := [];
    assert openSet + [] == openSet;
    for j := 0 to |moves|
      invariant found == Successors(env, target, node, closed, moves[..j])
      invariant updated == openSet + found
    {
      assert moves[..j + 1][..j] == moves[..j];
      var successor := env.neighbour(node.nodeIndex, moves[j]);
      if successor !in closed {
        var gScore := node.gScore + 1;
        var hScore := env.distance(successor, target);
        var fScore := gScore + hScore;
        var next := AStarNode(successor, Some(node), gScore, fScore);
        assert Successor(env, target, node, closed, moves[j]) == [next];
        assert (openSet + found) + [next] == openSet + (found + [next]);
        updated := updated + [next];
        found := found + [next];
      } else {
        assert found + [] == found;
      }
    }
    assert moves[..|moves|] == moves;
  }

  /** findNearestTarget. `closedSet` is the closed list when the search
      ends. The result is a target or, when the search runs dry, `current`;
      a `current` that is itself a target is returned by the first poll.
      Each index is closed at most once and only non-targets are closed.
      Termination needs the maze to be closed: every move the engine offers
      leads to one of its finitely many nodes. */
  method FindNearestTarget(env: Env, current: int, targets: seq<int>)
    returns (nearest: int, ghost closedSet: seq<int>)
    requires |targets| > 0
    requires ClosedMaze(env) && 0 <= current < env.nodeCount
    ensures nearest in targets || nearest == current
    ensures current in targets ==> nearest == current
    ensures Distinct(closedSet) && forall c :: c in closedSet ==> c !in targets && 0 <= c < env.nodeCount
  {
    var root := AStarNode(current, None, 0, env.distance(current, targets[0]));
    var openSet := [root];
    var closed: seq<int> := [];
    ghost var closedNodes: set<int> := {};
    assert Scored(env, current, targets[0], root);
    while openSet != []
      invariant SearchOk(env, current, targets, root, openSet, closed, closedNodes)
      decreases |NodesBelow(env.nodeCount) - closedNodes|, |openSet|
    {
      // poll: some element that compares at most equal to every other
      ghost var least := LeastF(openSet);
      var k :| 0 <= k < |openSet| && IsLeastAt(openSet, k);
      var currentAStarNode := openSet[k];
      PollStep(env, current, targets, root, openSet, closed, closedNodes, k);
      openSet := openSet[..k] + openSet[k + 1..];
      if currentAStarNode.nodeIndex in closed {
        continue;
      }
      var isTarget := ContainsTarget(currentAStarNode.nodeIndex, targets);
      if isTarget {
        return currentAStarNode.nodeIndex, closed;
      }
      CloseStep(env, current, targets, root, openSet, closed, closedNodes, currentAStarNode);
      closed := closed + [currentAStarNode.nodeIndex];
      closedNodes := closedNodes + {currentAStarNode.nodeIndex};
      openSet := AddSuccessors(env, targets[0], currentAStarNode, closed, openSet);
    }
    return current, closed;
  }

  /** The invariant of the search loop: the open set and the closed list
      are in shape, and a `current` that is a target is still the only
      open node. */
  ghost predicate SearchOk(env: Env, current: int, targets: seq<int>, root: AStarNode,
                           open: seq<AStarNode>, closed: seq<int>, closedNodes: set<int>)
    requires |targets| > 0
  {
    && OpenOk(env, current, targets[0], open)
    && ClosedOk(env, targets, closed, closedNodes)
    && (current in targets ==> open == [root] && closed == [])
  }

  /** Polling position `k` keeps the loop invariant for the rest of the
      open set when `current` is no target; the polled node is an open
      maze node, and it is the root when `current` is a target. */
  lemma PollStep(env: Env, current: int, targets: seq<int>, root: AStarNode,
                 open: seq<AStarNode>, closed: seq<int>, closedNodes: set<int>, k: nat)
    requires |targets| > 0 && k < |open|
    requires SearchOk(env, current, targets, root, open, closed, closedNodes)
    ensures current !in targets ==>
      SearchOk(env, current, targets, root, open[..k] + open[k + 1..], closed, closedNodes)
    ensures 0 <= open[k].nodeIndex < env.nodeCount && Scored(env, current, targets[0], open[k])
    ensures current in targets ==> open[k] == root && open[k].nodeIndex !in closed
  {
    Poll(env, current, targets[0], open, k);
    if current in targets {
      assert |open| == 1 && k == 0;
    }
  }

  /** Closing the polled node, a non-target not yet closed, and adding its
      successors keeps the loop invariant and leaves fewer maze nodes open. */
  lemma CloseStep(env: Env, current: int, targets: seq<int>, root: AStarNode,
                  open: seq<AStarNode>, closed: seq<int>, closedNodes: set<int>, node: AStarNode)
    requires |targets| > 0 && ClosedMaze(env)
    requires SearchOk(env, current, targets, root, open, closed, closedNodes)
    requires 0 <= node.nodeIndex < env.nodeCount && Scored(env, current, targets[0], node)
    requires node.nodeIndex !in closed && node.nodeIndex !in targets
    requires current !in targets
    ensures var closed' := closed + [node.nodeIndex];
      SearchOk(env, current, targets, root,
               open + Successors(env, targets[0], node, closed', env.possibleMovesFrom(node.nodeIndex)),
               closed', closedNodes + {node.nodeIndex})
    ensures |NodesBelow(env.nodeCount) - (closedNodes + {node.nodeIndex})| < |NodesBelow(env.nodeCount) - closedNodes|
  {
    var closed' := closed + [node.nodeIndex];
    Close(env, targets, closed, closedNodes, node.nodeIndex);
    SuccessorsOk(env, current, targets[0], node, closed', env.possibleMovesFrom(node.nodeIndex));
    OpenOkAppend(env, current, targets[0], open,
                 Successors(env, targets[0], node, closed', env.possibleMovesFrom(node.nodeIndex)));
  }

  /** getMove. `lastMoveMade` is getPacmanLastMoveMade(). With targets,
      the next move towards the one the search returns (a target, or
      Pac-Man's own node); without, the random move, which never turns
      back. */
  method GetMove(env: Env, current: int, pills: seq<int>, powerPills: seq<int>,
                 available: int -> Option<bool>, lastMoveMade: Option<Move>)
    returns (outcome: Outcome)
    requires Targets(pills, powerPills, available) != [] ==> ClosedMaze(env) && 0 <= current < env.nodeCount
    ensures var targets := Targets(pills, powerPills, available);
      targets != [] ==>
        exists t :: (t in targets || t == current) && (current in targets ==> t == current) &&
                    outcome == Returned(env.nextTowards(current, t))
    ensures Targets(pills, powerPills, available) == [] ==>
      (lastMoveMade.None? ==> outcome == Thrown(IndexOutOfBounds)) &&
      (lastMoveMade.Some? ==> outcome.Returned? && env.opposite(outcome.move) != lastMoveMade.value)
  {
    var targets := CollectTargets(pills, powerPills, available);
    if targets != [] {
      ghost var closedSet;
      var nearestTarget;
      nearestTarget, closedSet := FindNearestTarget(env, current, targets);
      return Returned(env.nextTowards(current, nearestTarget));
    }
    outcome := RandomWalk.GetMove(env.opposite, lastMoveMade);
  }
}
