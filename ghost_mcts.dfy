/** MCTS_POCommGhost: the belief update, the choice between retreating, a
    random move and a Monte Carlo tree search, and runMCTS itself. The
    rollouts (`simulate`) are not modelled: the score of the i-th rollout is
    the input `scores[i]`. */
module MctsGhost {
  import opened Engine
  import opened ExtReal
  import opened Belief
  import opened GhostTree

  /** NUM_SIMULATIONS */
  const NumSimulations := 500

  /** The root of the search: new Node(null, lastMove, ghostPosition, pacmanIndex). */
  function Root(lastMove: Move, ghostPos: int, pacPos: int): Node
  {
    Node(-1, lastMove, 0, 0, ghostPos, pacPos, [])
  }

  /** A node created from the candidate `c`, whatever its statistics and
      children have since become. */
  predicate Matches(n: Node, c: Child)
  {
    n.move == c.move && n.ghostPos == c.ghostPos && n.pacPos == c.pacPos
  }

  /** The end of runMCTS on the final tree: printDebugInfo dereferences
      getBestChild(root).move, so a root without children throws before the
      NEUTRAL fallback is reached; otherwise the move of the best child by
      UCT (not the most visited one) is returned. */
  function Decision(tree: seq<Node>, uct: (Node, Node) -> real): Outcome
    requires WellFormed(tree)
  {
    match BestChild(tree, 0, uct)
    case None => Thrown(NullPointer)
    case Some(c) => Returned(tree[c].move)
  }

  /** The root's children are the candidates of the root: the decision throws
      exactly when there are none, and otherwise is a ghost move the engine
      offers at the root. */
  lemma DecisionFromCandidates(env: Env, tree: seq<Node>, uct: (Node, Node) -> real, root: Node)
    requires WellFormed(tree) && |tree| >= 1 + |Candidates(env, root)|
    requires tree[0].children == Range(1, 1 + |Candidates(env, root)|)
    requires forall j :: 0 <= j < |Candidates(env, root)| ==> Matches(tree[1 + j], Candidates(env, root)[j])
    ensures Candidates(env, root) == [] <==> Decision(tree, uct) == Thrown(NullPointer)
    ensures Decision(tree, uct).Returned? ==>
      Decision(tree, uct).move in env.possibleMoves(root.ghostPos, Some(root.move))
  {
    var cs := Candidates(env, root);
    BestChildNoneIffLeaf(tree, 0, uct);
    if cs != [] {
      var c := BestChild(tree, 0, uct).value;
      var j := c - 1;
      assert tree[0].children[j] == c;
      assert Matches(tree[c], cs[j]);
      assert cs[j] in cs;
      PairsExact(env, root.ghostPos, root.pacPos, env.possibleMoves(root.ghostPos, Some(root.move)),
                 env.possibleMovesFrom(root.pacPos), cs[j]);
    }
  }

  /** The shape of the tree runMCTS keeps: the root is the node it was built
      with; before the first round it is alone, after it its children are
      exactly the candidates `cs`, in order. */
  ghost predicate RootState(nodes: seq<Node>, root: Node, cs: seq<Child>, expanded: bool)
  {
    && WellFormed(nodes)
    && Matches(nodes[0], Child(root.move, root.ghostPos, root.pacPos))
    && (!expanded ==> nodes == [root])
    && (expanded ==> |nodes| >= 1 + |cs| && nodes[0].children == Range(1, 1 + |cs|))
    && (expanded ==> forall j :: 0 <= j < |cs| ==> Matches(nodes[1 + j], cs[j]))
  }

  /** One select-and-expand round: the first expands the root with its
      candidates; later ones expand a leaf that is not the root whenever the
      root has children, and the empty candidate list otherwise. */
  lemma AfterExpand(env: Env, o: seq<Node>, nodes: seq<Node>, uct: (Node, Node) -> real,
                    root: Node, leaf: int, expanded: bool)
    requires root.parent == -1 && root.visits == 0 && root.score == 0 && root.children == []
    requires RootState(o, root, Candidates(env, root), expanded)
    requires leaf == SelectFrom(o, 0, uct)
    requires WellFormed(nodes) && Grown(o, nodes, leaf, Candidates(env, o[leaf]))
    ensures RootState(nodes, root, Candidates(env, root), true)
  {
    BestChildNoneIffLeaf(o, 0, uct);
    assert Candidates(env, o[0]) == Candidates(env, root);
    if o[0].children == [] {
      assert leaf == 0;
      ExpandRoot(env, o, nodes, root, expanded);
    } else {
      assert leaf != 0;
      ExpandBelowRoot(o, nodes, root, Candidates(env, root), leaf, Candidates(env, o[leaf]));
    }
  }

  /** The round that expands the root: in the first round its children
      become the candidates; a later round reaches it only when the
      candidates are empty, and then nothing changes. */
  lemma ExpandRoot(env: Env, o: seq<Node>, nodes: seq<Node>, root: Node, expanded: bool)
    requires root.parent == -1 && root.visits == 0 && root.score == 0 && root.children == []
    requires RootState(o, root, Candidates(env, root), expanded) && o[0].children == []
    requires WellFormed(nodes) && Grown(o, nodes, 0, Candidates(env, root))
    ensures RootState(nodes, root, Candidates(env, root), true)
  {
    var cs := Candidates(env, root);
    if expanded {
      assert cs == [];
      assert Range(|o|, |o|) == [];
      assert nodes[0].children == [] + [];
    } else {
      assert |o| == 1 && nodes[0].children == [] + Range(1, 1 + |cs|);
      forall j | 0 <= j < |cs|
        ensures Matches(nodes[1 + j], cs[j])
      {
        assert nodes[|o| + j] == NewChild(0, cs[j]);
      }
    }
  }

  /** A round that expands a node other than the root leaves the root and
      its children as they were. */
  lemma ExpandBelowRoot(o: seq<Node>, nodes: seq<Node>, root: Node, cs: seq<Child>, leaf: int,
                        added: seq<Child>)
    requires RootState(o, root, cs, true) && 0 < leaf < |o|
    requires WellFormed(nodes) && Grown(o, nodes, leaf, added)
    ensures RootState(nodes, root, cs, true)
  {
    forall j | 0 <= j < |cs|
      ensures Matches(nodes[1 + j], cs[j])
    {
      assert Matches(o[1 + j], cs[j]);
    }
  }

  lemma AfterBackpropagate(o: seq<Node>, nodes: seq<Node>, root: Node, cs: seq<Child>, score: int)
    requires RootState(o, root, cs, true) && WellFormed(nodes) && |nodes| == |o|
    requires forall k :: 0 <= k < |o| ==> nodes[k] == o[k] || nodes[k] == Bumped(o[k], score)
    ensures RootState(nodes, root, cs, true)
  {
    forall j | 0 <= j < |cs|
      ensures Matches(nodes[1 + j], cs[j])
    {
      assert Matches(o[1 + j], cs[j]);
    }
    assert nodes[0] == o[0] || nodes[0] == Bumped(o[0], score);
  }

  /** The tree after one round of runMCTS's loop whose rollout scored
      `score`: the leaf select reaches gets its candidates as children, and
      the chain from that leaf to the root one more visit and the score. */
  ghost function AfterRound(nodes: seq<Node>, env: Env, uct: (Node, Node) -> real, score: int)
    : (r: seq<Node>)
    requires WellFormed(nodes)
    ensures WellFormed(r)
  {
    var leaf := SelectFrom(nodes, 0, uct);
    ExtendWellFormed(nodes, leaf, Candidates(env, nodes[leaf]));
    Backpropagated(Extend(nodes, leaf, Candidates(env, nodes[leaf])), leaf, score)
  }

  /** The tree after one round per score of `scores`, in order. */
  ghost function AfterRounds(nodes: seq<Node>, env: Env, uct: (Node, Node) -> real, scores: seq<int>)
    : (r: seq<Node>)
    requires WellFormed(nodes)
    ensures WellFormed(r)
    decreases |scores|
  {
    if scores == [] then nodes
    else AfterRound(AfterRounds(nodes, env, uct, scores[..|scores| - 1]), env, uct, scores[|scores| - 1])
  }

  /** One more score is one more round. */
  lemma RoundsSnoc(nodes: seq<Node>, env: Env, uct: (Node, Node) -> real, scores: seq<int>, i: nat)
    requires WellFormed(nodes) && i < |scores|
    ensures AfterRounds(nodes, env, uct, scores[..i + 1]) ==
            AfterRound(AfterRounds(nodes, env, uct, scores[..i]), env, uct, scores[i])
  {
    assert scores[..i + 1][..i] == scores[..i];
  }

  /** One iteration of runMCTS's loop: select, expand, backpropagate. */
  method Round(t: SearchTree, env: Env, uct: (Node, Node) -> real, score: int)
    requires t.Valid()
    modifies t
    ensures t.Valid() && t.nodes == AfterRound(old(t.nodes), env, uct, score)
  {
    ghost var before := t.nodes;
    var selectedNode := t.Select(uct);
    t.Expand(selectedNode, env);
    ghost var grown := t.nodes;
    t.Backpropagate(selectedNode, score);
    assert t.nodes == Backpropagated(grown, selectedNode, score);
  }

  /** One round taken apart: select reaches `leaf`, expand turns the tree
      into `grown`, and backpropagate from `leaf` gives the round's tree. */
  lemma RoundParts(env: Env, o: seq<Node>, uct: (Node, Node) -> real, score: int)
    requires WellFormed(o)
    ensures var leaf := SelectFrom(o, 0, uct);
      var grown := Extend(o, leaf, Candidates(env, o[leaf]));
      && WellFormed(grown) && Grown(o, grown, leaf, Candidates(env, o[leaf]))
      && AfterRound(o, env, uct, score) == Backpropagated(grown, leaf, score)
  {
    var leaf := SelectFrom(o, 0, uct);
    ExtendGrows(o, leaf, Candidates(env, o[leaf]));
    ExtendWellFormed(o, leaf, Candidates(env, o[leaf]));
  }

  /** backpropagate bumps the root, and every other node is bumped or left
      as it was. */
  lemma BumpRoot(grown: seq<Node>, leaf: int, score: int)
    requires WellFormed(grown) && 0 <= leaf < |grown|
    ensures var r := Backpropagated(grown, leaf, score);
      && r[0] == Bumped(grown[0], score)
      && forall k :: 0 <= k < |grown| ==> r[k] == grown[k] || r[k] == Bumped(grown[k], score)
  {
    ChainReachesRoot(grown, leaf);
  }

  /** Backpropagating from a child `c` of the root, or from the root itself
      (`c == 0`), bumps `c` and the root and leaves every other node as it
      was. */
  lemma BumpChild(grown: seq<Node>, c: int, score: int)
    requires WellFormed(grown) && 0 <= c < |grown| && (c != 0 ==> grown[c].parent == 0)
    ensures var r := Backpropagated(grown, c, score);
      && r[c] == Bumped(grown[c], score)
      && forall k :: 0 < k < |grown| && k != c ==> r[k] == grown[k]
  {
    assert OnChain(grown, c, c);
    forall k | 0 < k < |grown| && k != c
      ensures !OnChain(grown, c, k)
    {
      assert !OnChain(grown, 0, k);
    }
  }

  /** A round gives the root one more visit and the round's score, and
      takes no visit away from any node. */
  lemma RoundRoot(o: seq<Node>, grown: seq<Node>, r: seq<Node>, leaf: int, added: seq<Child>, score: int)
    requires WellFormed(o) && 0 <= leaf < |o|
    requires WellFormed(grown) && Grown(o, grown, leaf, added) && r == Backpropagated(grown, leaf, score)
    ensures r[0].visits == o[0].visits + 1 && r[0].score == o[0].score + score
    ensures forall k :: 0 <= k < |o| ==> r[k].visits >= o[k].visits
  {
    BumpRoot(grown, leaf, score);
  }

  /** A round that selects the root's child `c` (or the root, `c == 0`)
      gives `c` one more visit and leaves every other child of the root
      with its visits and children. */
  lemma ChildRound(o: seq<Node>, grown: seq<Node>, r: seq<Node>, c: int, added: seq<Child>, score: int)
    requires WellFormed(o) && 0 <= c < |o| && (c != 0 ==> o[c].parent == 0)
    requires WellFormed(grown) && Grown(o, grown, c, added) && r == Backpropagated(grown, c, score)
    ensures r[c].visits == o[c].visits + 1
    ensures forall k :: 0 < k < |grown| && k != c ==> r[k] == grown[k]
    ensures forall k :: 0 < k < |o| && k != c ==> r[k] == o[k]
  {
    BumpChild(grown, c, score);
  }

  /** While some child of the expanded root is unvisited, select returns
      the first one: it has infinite UCT value and is still a leaf. */
  lemma SelectsChild(o: seq<Node>, uct: (Node, Node) -> real, root: Node, cs: seq<Child>, v: nat)
    requires RootState(o, root, cs, true) && v < |cs| && FirstVisited(o, |cs|, v)
    ensures SelectFrom(o, 0, uct) == 1 + v
  {
    var c := 1 + v;
    assert o[0].children[v] == c;
    assert forall j :: 0 <= j < v ==> o[o[0].children[j]].visits != 0;
    FirstUnvisitedWins(o, 0, uct, v);
    BestChildNoneIffLeaf(o, c, uct);
    assert SelectFrom(o, c, uct) == c;
  }

  /** The state `n` rounds leave on a fresh root with candidates `cs`: the
      root's children are `cs`, the root has `n` visits, and after the
      first round exactly the first n - 1 children have been visited. */
  ghost predicate RoundsInvariant(nodes: seq<Node>, root: Node, cs: seq<Child>, n: nat)
  {
    && RootState(nodes, root, cs, n > 0)
    && nodes[0].visits == n
    && (n > 0 ==> FirstVisited(nodes, |cs|, n - 1))
  }

  /** Of the root's children, nodes 1 .. m, exactly the first `v` have
      been visited, and the others are still leaves. */
  ghost predicate FirstVisited(nodes: seq<Node>, m: int, v: int)
  {
    forall k :: 0 < k <= m && k < |nodes| ==>
      && (k <= v ==> nodes[k].visits > 0)
      && (v < k ==> nodes[k].visits == 0 && nodes[k].children == [])
  }

  /** A round keeps the root's children the root's candidates, gives the
      root one more visit and the round's score, and takes no visit away. */
  lemma StepShape(env: Env, uct: (Node, Node) -> real, root: Node, p: seq<Node>, grown: seq<Node>,
                  r: seq<Node>, leaf: int, n: nat, score: int)
    requires root.parent == -1 && root.visits == 0 && root.score == 0 && root.children == []
    requires RootState(p, root, Candidates(env, root), n > 0) && leaf == SelectFrom(p, 0, uct)
    requires WellFormed(grown) && Grown(p, grown, leaf, Candidates(env, p[leaf]))
    requires r == Backpropagated(grown, leaf, score)
    ensures RootState(r, root, Candidates(env, root), true)
    ensures r[0].visits == p[0].visits + 1 && r[0].score == p[0].score + score
    ensures forall k :: 0 <= k < |p| ==> r[k].visits >= p[k].visits
  {
    AfterExpand(env, p, grown, uct, root, leaf, n > 0);
    BumpRoot(grown, leaf, score);
    AfterBackpropagate(grown, r, root, Candidates(env, root), score);
    RoundRoot(p, grown, r, leaf, Candidates(env, p[leaf]), score);
  }

  /** The first round backpropagates from the root alone: the root's new
      children stay unvisited leaves. */
  lemma FirstStepVisits(env: Env, root: Node, grown: seq<Node>, r: seq<Node>, score: int)
    requires root.parent == -1 && root.visits == 0 && root.score == 0 && root.children == []
    requires WellFormed(grown) && Grown([root], grown, 0, Candidates(env, root))
    requires r == Backpropagated(grown, 0, score)
    ensures FirstVisited(r, |Candidates(env, root)|, 0)
  {
    var cs := Candidates(env, root);
    ChildRound([root], grown, r, 0, cs, score);
    forall k | 0 < k <= |cs| && k < |r|
      ensures r[k].visits == 0 && r[k].children == []
    {
      assert grown[1 + (k - 1)] == NewChild(0, cs[k - 1]);
    }
  }

  /** A later round visits the first unvisited child of the root, if any
      is left, and keeps the visits of the others. */
  lemma LaterStepVisits(uct: (Node, Node) -> real, root: Node, cs: seq<Child>, p: seq<Node>, grown: seq<Node>,
                        r: seq<Node>, leaf: int, added: seq<Child>, n: nat, score: int)
    requires RootState(p, root, cs, true) && 0 < n && FirstVisited(p, |cs|, n - 1)
    requires leaf == SelectFrom(p, 0, uct)
    requires WellFormed(grown) && Grown(p, grown, leaf, added) && r == Backpropagated(grown, leaf, score)
    requires |r| >= |p| && forall k :: 0 <= k < |p| ==> r[k].visits >= p[k].visits
    ensures FirstVisited(r, |cs|, n)
  {
    if n - 1 < |cs| {
      SelectsChild(p, uct, root, cs, n - 1);
      ChildRound(p, grown, r, n, added, score);
    }
  }

  /** One more round: the invariant moves from `n` to n + 1 rounds and
      the root's score grows by the round's score. */
  lemma RoundStep(env: Env, uct: (Node, Node) -> real, root: Node, p: seq<Node>, n: nat, score: int)
    requires root.parent == -1 && root.visits == 0 && root.score == 0 && root.children == []
    requires RoundsInvariant(p, root, Candidates(env, root), n)
    ensures RoundsInvariant(AfterRound(p, env, uct, score), root, Candidates(env, root), n + 1)
    ensures AfterRound(p, env, uct, score)[0].score == p[0].score + score
  {
    var leaf := SelectFrom(p, 0, uct);
    var added := Candidates(env, p[leaf]);
    var grown := Extend(p, leaf, added);
    RoundParts(env, p, uct, score);
    var r := Backpropagated(grown, leaf, score);
    StepShape(env, uct, root, p, grown, r, leaf, n, score);
    if n == 0 {
      BestChildNoneIffLeaf(p, 0, uct);
      FirstStepVisits(env, root, grown, r, score);
    } else {
      LaterStepVisits(uct, root, Candidates(env, root), p, grown, r, leaf, added, n, score);
    }
  }

  /** What `n` rounds on a fresh root leave: the root's children are its
      candidates, the root has `n` visits and the sum of the scores, and
      the rounds after the first visit the root's children one by one, in
      order, so exactly the first n - 1 of them have been visited. */
  lemma {:induction false} RoundsState(env: Env, uct: (Node, Node) -> real, root: Node, scores: seq<int>)
    requires root.parent == -1 && root.visits == 0 && root.score == 0 && root.children == []
    ensures var r := AfterRounds([root], env, uct, scores);
      && RoundsInvariant(r, root, Candidates(env, root), |scores|)
      && r[0].score == Sum(scores)
    decreases |scores|
  {
    if scores != [] {
      var init := scores[..|scores| - 1];
      RoundsState(env, uct, root, init);
      var p := AfterRounds([root], env, uct, init);
      RoundStep(env, uct, root, p, |init|, scores[|scores| - 1]);
      assert AfterRounds([root], env, uct, scores) == AfterRound(p, env, uct, scores[|scores| - 1]);
    }
  }

  /** runMCTS: NUM_SIMULATIONS rounds of select, expand and backpropagate on
      a fresh tree, then the decision on the root. The first round expands
      the root; as long as the root has children select never returns it
      again, so its children stay those candidates. Every round visits the
      root, and the rounds after the first visit the root's children in
      order until each has been visited. */
  method RunMcts(env: Env, ghostPos: int, pacmanIndex: int, lastMove: Move,
                 scores: seq<int>, uct: (Node, Node) -> real)
    returns (outcome: Outcome, ghost tree: seq<Node>)
    requires |scores| == NumSimulations
    ensures WellFormed(tree) && Matches(tree[0], Child(lastMove, ghostPos, pacmanIndex))
    ensures |tree| >= 1 + |Candidates(env, Root(lastMove, ghostPos, pacmanIndex))|
    ensures tree[0].children == Range(1, 1 + |Candidates(env, Root(lastMove, ghostPos, pacmanIndex))|)
    ensures forall j :: 0 <= j < |Candidates(env, Root(lastMove, ghostPos, pacmanIndex))| ==>
      Matches(tree[1 + j], Candidates(env, Root(lastMove, ghostPos, pacmanIndex))[j])
    ensures tree == AfterRounds([Root(lastMove, ghostPos, pacmanIndex)], env, uct, scores)
    ensures tree[0].visits == NumSimulations && tree[0].score == Sum(scores)
    ensures forall k :: 0 < k <= |Candidates(env, Root(lastMove, ghostPos, pacmanIndex))| ==>
      (tree[k].visits > 0 <==> k < NumSimulations)
    ensures outcome == Decision(tree, uct)
    ensures Candidates(env, Root(lastMove, ghostPos, pacmanIndex)) == [] <==> outcome == Thrown(NullPointer)
    ensures outcome.Returned? ==> outcome.move in env.possibleMoves(ghostPos, Some(lastMove))
  {
    ghost var root := Root(lastMove, ghostPos, pacmanIndex);
    ghost var cs := Candidates(env, root);
    var t := new SearchTree(lastMove, ghostPos, pacmanIndex);
    var i := 0;
    while i < NumSimulations
      invariant 0 <= i <= NumSimulations
      invariant t.Valid() && t.nodes == AfterRounds([root], env, uct, scores[..i])
    {
      Round(t, env, uct, scores[i]);
      RoundsSnoc([root], env, uct, scores, i);
      i := i + 1;
    }
    assert scores[..i] == scores;
    var bestChild := t.GetBestChild(0, uct);
    tree := t.nodes;
    // printDebugInfo(root): getBestChild(root).move
    if bestChild.None? {
      outcome := Thrown(NullPointer);
    } else {
      outcome := Returned(t.nodes[bestChild.value].move);
    }
    SearchOutcome(env, uct, lastMove, ghostPos, pacmanIndex, scores, tree, outcome);
  }

  /** The tree and decision of NUM_SIMULATIONS rounds on a fresh root. */
  lemma SearchOutcome(env: Env, uct: (Node, Node) -> real, lastMove: Move, ghostPos: int, pacmanIndex: int,
                      scores: seq<int>, tree: seq<Node>, outcome: Outcome)
    requires |scores| == NumSimulations
    requires tree == AfterRounds([Root(lastMove, ghostPos, pacmanIndex)], env, uct, scores)
    requires outcome == Decision(tree, uct)
    ensures Matches(tree[0], Child(lastMove, ghostPos, pacmanIndex))
    ensures |tree| >= 1 + |Candidates(env, Root(lastMove, ghostPos, pacmanIndex))|
    ensures tree[0].children == Range(1, 1 + |Candidates(env, Root(lastMove, ghostPos, pacmanIndex))|)
    ensures forall j :: 0 <= j < |Candidates(env, Root(lastMove, ghostPos, pacmanIndex))| ==>
      Matches(tree[1 + j], Candidates(env, Root(lastMove, ghostPos, pacmanIndex))[j])
    ensures tree[0].visits == NumSimulations && tree[0].score == Sum(scores)
    ensures forall k :: 0 < k <= |Candidates(env, Root(lastMove, ghostPos, pacmanIndex))| ==>
      (tree[k].visits > 0 <==> k < NumSimulations)
    ensures Candidates(env, Root(lastMove, ghostPos, pacmanIndex)) == [] <==> outcome == Thrown(NullPointer)
    ensures outcome.Returned? ==> outcome.move in env.possibleMoves(ghostPos, Some(lastMove))
  {
    var root := Root(lastMove, ghostPos, pacmanIndex);
    RoundsState(env, uct, root, scores);
    DecisionFromCandidates(env, tree, uct, root);
  }

  /** The controller of one ghost: the belief fields and its getMove. */
  class MctsPoCommGhost {
    const tracker: Tracker

    constructor (me: GhostId, tickThreshold: int)
      ensures fresh(tracker)
      ensures tracker.me == me && tracker.tickThreshold == tickThreshold
      ensures tracker.State() == Unknown
    {
      tracker := new Tracker(me, tickThreshold);
    }

    /** getMove. `pacmanLive` is getPacmanCurrentNodeIndex() (-1 when Ms
        Pac-Man is not visible), `requiresAction` doesGhostRequireAction
        (None for `null`), `messenger` getMessenger(). The random move is
        any element of the offered moves; nextInt(0) on an empty array
        throws IllegalArgumentException. */
    method GetMove(env: Env, now: int, pacmanLive: int, ghostPos: int, ghostLastMove: Move,
                   requiresAction: Option<bool>, edibleTime: int, messenger: Messenger?,
                   scores: seq<int>, uct: (Node, Node) -> real)
      returns (outcome: Outcome, ghost tree: seq<Node>)
      requires |scores| == NumSimulations
      modifies tracker, messenger
      ensures tracker.State() == Observe(old(tracker.State()), now, tracker.tickThreshold, pacmanLive,
                                         if messenger == null then None else Some(old(messenger.log)))
      ensures messenger != null ==>
        messenger.log == old(messenger.log) +
          (if pacmanLive != -1 then [Message(tracker.me, PacmanSeen, pacmanLive, now)] else [])
      ensures requiresAction != Some(true) ==> outcome == NoDecision
      ensures requiresAction == Some(true) && tracker.lastPacmanIndex == -1 ==>
        var moves := env.possibleMoves(ghostPos, Some(ghostLastMove));
        if moves == [] then outcome == Thrown(IllegalArgument)
        else outcome.Returned? && outcome.move in moves
      ensures requiresAction == Some(true) && tracker.lastPacmanIndex != -1 && edibleTime > 0 ==>
        outcome == match env.approxAway(ghostPos, pacmanLive, ghostLastMove)
                   case None => NoDecision
                   case Some(m) => Returned(m)
      ensures requiresAction == Some(true) && tracker.lastPacmanIndex != -1 && edibleTime <= 0 ==>
        var cs := Candidates(env, Root(ghostLastMove, ghostPos, tracker.lastPacmanIndex));
        && WellFormed(tree) && Matches(tree[0], Child(ghostLastMove, ghostPos, tracker.lastPacmanIndex))
        && |tree| >= 1 + |cs| && tree[0].children == Range(1, 1 + |cs|)
        && (forall j :: 0 <= j < |cs| ==> Matches(tree[1 + j], cs[j]))
        && tree == AfterRounds([Root(ghostLastMove, ghostPos, tracker.lastPacmanIndex)], env, uct, scores)
        && tree[0].visits == NumSimulations && tree[0].score == Sum(scores)
        && (forall k :: 0 < k <= |cs| ==> (tree[k].visits > 0 <==> k < NumSimulations))
        && outcome == Decision(tree, uct)
        && (cs == [] <==> outcome == Thrown(NullPointer))
        && (cs != [] ==> outcome.Returned?)
        && (outcome.Returned? ==> outcome.move in env.possibleMoves(ghostPos, Some(ghostLastMove)))
    {
      tree := [];
      var pacmanIndex := tracker.Update(now, pacmanLive, messenger);
      if requiresAction == Some(true) {
        if pacmanIndex != -1 {
          if edibleTime > 0 {
            var away := env.approxAway(ghostPos, pacmanLive, ghostLastMove);
            if away.Some? {
              return Returned(away.value), tree;
            }
            // ArrayIndexOutOfBoundsException caught: fall through to `null`
          } else {
            outcome, tree := RunMcts(env, ghostPos, pacmanIndex, ghostLastMove, scores, uct);
            return;
          }
        } else {
          var possibleMoves := env.possibleMoves(ghostPos, Some(ghostLastMove));
          if possibleMoves == [] {
            return Thrown(IllegalArgument), tree;
          }
          assert possibleMoves[0] in possibleMoves;
          var m :| m in possibleMoves;
          return Returned(m), tree;
        }
      }
      return NoDecision, tree;
    }
  }
}
