/** SecondCustomAI: a Monte Carlo tree search for Ms Pac-Man. The nodes of
    MonteCarloNode are objects linked by `parent` references and `children`
    lists; here they live in an arena, a sequence of node values in which a
    node is named by its index, the root is node 0 and `parent == -1` stands
    for `null`. The UCT formula is an abstract real-valued function
    `uct(parent, child)`; only its rule for unvisited nodes (+infinity) is
    kept. The game copies that expand advances and the rollouts are not
    modelled: the node a copy reaches is the input `landing(move)`, the score
    of the i-th rollout the input `scores[i]`. */
module SecondCustomAI {
  import opened Engine
  import opened ExtReal

  /** SIMULATIONS */
  const Simulations := 50

  /** MOVE.values() with NEUTRAL removed: the moves expand tries, in order. */
  const LegalMoves: seq<Move> := [Up, Right, Down, Left]

  datatype McNode = McNode(nodeIndex: int, move: Move, parent: int, children: seq<int>,
                           visits: int, totalScore: int)

  /** The arena is a tree rooted at node 0: every other node has an earlier
      parent, and a node's children come after it and point back to it. */
  ghost predicate WellFormed(nodes: seq<McNode>)
  {
    && |nodes| > 0
    && nodes[0].parent == -1
    && (forall k :: 0 < k < |nodes| ==> 0 <= nodes[k].parent < k)
    && (forall k, i :: 0 <= k < |nodes| && 0 <= i < |nodes[k].children| ==>
          k < nodes[k].children[i] < |nodes| && nodes[nodes[k].children[i]].parent == k)
  }

  // ----- getChildWithMove

  /** The first node of `cs` whose move is `m`. */
  function FirstWithMove(nodes: seq<McNode>, cs: seq<int>, m: Move): Option<int>
    requires forall i :: 0 <= i < |cs| ==> 0 <= cs[i] < |nodes|
  {
    if cs == [] then None
    else if nodes[cs[0]].move == m then Some(cs[0])
    else FirstWithMove(nodes, cs[1..], m)
  }

  /** There is none exactly when no node of `cs` has the move; otherwise it
      has the move and no earlier node of `cs` has. */
  lemma {:induction false} FirstWithMoveCorrect(nodes: seq<McNode>, cs: seq<int>, m: Move)
    requires forall i :: 0 <= i < |cs| ==> 0 <= cs[i] < |nodes|
    ensures FirstWithMove(nodes, cs, m).None? <==> forall i :: 0 <= i < |cs| ==> nodes[cs[i]].move != m
    ensures FirstWithMove(nodes, cs, m).Some? ==>
      exists i :: 0 <= i < |cs| && cs[i] == FirstWithMove(nodes, cs, m).value && nodes[cs[i]].move == m
        && forall j :: 0 <= j < i ==> nodes[cs[j]].move != m
  {
    if cs != [] {
      FirstWithMoveCorrect(nodes, cs[1..], m);
      assert forall i :: 1 <= i < |cs| ==> cs[i] == cs[1..][i - 1];
      if nodes[cs[0]].move != m && FirstWithMove(nodes, cs[1..], m).Some? {
        var i :| 0 <= i < |cs[1..]| && cs[1..][i] == FirstWithMove(nodes, cs[1..], m).value
          && nodes[cs[1..][i]].move == m
          && forall j :: 0 <= j < i ==> nodes[cs[1..][j]].move != m;
        assert cs[i + 1] == cs[1..][i];
      }
    }
  }

  /** getChildWithMove(m) on node `k`. */
  function ChildWithMove(nodes: seq<McNode>, k: int, m: Move): Option<int>
    requires WellFormed(nodes) && 0 <= k < |nodes|
  {
    FirstWithMove(nodes, nodes[k].children, m)
  }

  /** The first move of `ms` for which node `k` has no child yet. */
  function FirstMissing(nodes: seq<McNode>, k: int, ms: seq<Move>): Option<Move>
    requires WellFormed(nodes) && 0 <= k < |nodes|
  {
    if ms == [] then None
    else if ChildWithMove(nodes, k, ms[0]).None? then Some(ms[0])
    else FirstMissing(nodes, k, ms[1..])
  }

  /** A node without children misses every move, the first one first. */
  lemma LeafMissesFirst(nodes: seq<McNode>, k: int, ms: seq<Move>)
    requires WellFormed(nodes) && 0 <= k < |nodes| && nodes[k].children == [] && ms != []
    ensures FirstMissing(nodes, k, ms) == Some(ms[0])
  {
  }

  /** Only when no move is missing does expand fall back on a random child,
      and then there is one to return. */
  lemma NoneMissingHasChildren(nodes: seq<McNode>, k: int, ms: seq<Move>)
    requires WellFormed(nodes) && 0 <= k < |nodes| && ms != []
    requires FirstMissing(nodes, k, ms).None?
    ensures nodes[k].children != []
  {
    if nodes[k].children == [] {
      LeafMissesFirst(nodes, k, ms);
    }
  }

  // ----- UCTSelectChild and getBestChild

  /** calculateUCTValue: +infinity for a node never visited, otherwise the
      value of the (abstract) UCT formula. */
  function UctValue(uct: (McNode, McNode) -> real, parent: McNode, child: McNode): Ext
  {
    if child.visits == 0 then PosInf else Fin(uct(parent, child))
  }

  /** The UCT values of the children of node `k`, in the order of its list. */
  function ChildValues(nodes: seq<McNode>, k: int, uct: (McNode, McNode) -> real): (vals: seq<Ext>)
    requires WellFormed(nodes) && 0 <= k < |nodes|
    ensures |vals| == |nodes[k].children|
    ensures forall i :: 0 <= i < |vals| ==> vals[i].Fin? || vals[i].PosInf?
  {
    var cs := nodes[k].children;
    seq(|cs|, i requires 0 <= i < |cs| => UctValue(uct, nodes[k], nodes[cs[i]]))
  }

  /** What UCTSelectChild returns: the child at the first position of
      maximal UCT value, or None (`null`). */
  function UctChild(nodes: seq<McNode>, k: int, uct: (McNode, McNode) -> real): (r: Option<int>)
    requires WellFormed(nodes) && 0 <= k < |nodes|
    ensures r.Some? ==> r.value in nodes[k].children && k < r.value < |nodes|
  {
    var vals := ChildValues(nodes, k, uct);
    FirstArgMaxCorrect(vals);
    match FirstArgMax(vals)
    case None => None
    case Some(i) => Some(nodes[k].children[i])
  }

  /** UCTSelectChild gives `null` exactly for a node without children: no
      UCT value is NaN or -infinity. */
  lemma UctChildNoneIffLeaf(nodes: seq<McNode>, k: int, uct: (McNode, McNode) -> real)
    requires WellFormed(nodes) && 0 <= k < |nodes|
    ensures UctChild(nodes, k, uct).None? <==> nodes[k].children == []
  {
    var vals := ChildValues(nodes, k, uct);
    FirstArgMaxCorrect(vals);
    if vals != [] {
      FirstArgMaxExists(vals);
    }
  }

  /** The first unvisited child beats every visited one, whatever their UCT. */
  lemma FirstUnvisitedWins(nodes: seq<McNode>, k: int, uct: (McNode, McNode) -> real, i: nat)
    requires WellFormed(nodes) && 0 <= k < |nodes|
    requires i < |nodes[k].children| && nodes[nodes[k].children[i]].visits == 0
    requires forall j :: 0 <= j < i ==> nodes[nodes[k].children[j]].visits != 0
    ensures UctChild(nodes, k, uct) == Some(nodes[k].children[i])
  {
    FirstInfinityWins(ChildValues(nodes, k, uct), i);
  }

  /** `(double) totalScore / visits`: a finite quotient, or the IEEE result
      of a division by zero. */
  function Ratio(totalScore: int, visits: int): Ext
  {
    if visits != 0 then Fin(totalScore as real / visits as real)
    else if totalScore > 0 then PosInf
    else if totalScore < 0 then NegInf
    else NaN
  }

  /** The average scores of the children of node `k`, in list order. */
  function ChildRatios(nodes: seq<McNode>, k: int): (vals: seq<Ext>)
    requires WellFormed(nodes) && 0 <= k < |nodes|
    ensures |vals| == |nodes[k].children|
  {
    var cs := nodes[k].children;
    seq(|cs|, i requires 0 <= i < |cs| => Ratio(nodes[cs[i]].totalScore, nodes[cs[i]].visits))
  }

  /** What getBestChild returns: the child at the first position of maximal
      average score, or None (`null`) when no average is above -infinity. */
  function BestChild(nodes: seq<McNode>, k: int): (r: Option<int>)
    requires WellFormed(nodes) && 0 <= k < |nodes|
    ensures r.Some? ==> r.value in nodes[k].children && k < r.value < |nodes|
  {
    var vals := ChildRatios(nodes, k);
    FirstArgMaxCorrect(vals);
    match FirstArgMax(vals)
    case None => None
    case Some(i) => Some(nodes[k].children[i])
  }

  /** A child that was visited is above -infinity, so a node whose first
      child was visited has a best child. */
  lemma VisitedChildIsBest(nodes: seq<McNode>, k: int)
    requires WellFormed(nodes) && 0 <= k < |nodes| && nodes[k].children != []
    requires nodes[nodes[k].children[0]].visits != 0
    ensures BestChild(nodes, k).Some?
  {
    var vals := ChildRatios(nodes, k);
    FirstArgMaxCorrect(vals);
    assert vals[0].Fin?;
    assert Less(NegInf, vals[0]);
  }

  // ----- select

  /** What select computes: the node reached from `k` by repeated
      UCTSelectChild, which has no children. */
  function SelectFrom(nodes: seq<McNode>, k: int, uct: (McNode, McNode) -> real): (leaf: int)
    requires WellFormed(nodes) && 0 <= k < |nodes|
    ensures k <= leaf < |nodes| && nodes[leaf].children == []
    decreases |nodes| - k
  {
    UctChildNoneIffLeaf(nodes, k, uct);
    match UctChild(nodes, k, uct)
    case None => k
    case Some(c) => SelectFrom(nodes, c, uct)
  }

  // ----- backpropagate

  /** node.update(score): one more visit, the score added to the total. */
  function Updated(n: McNode, score: int): McNode
  {
    n.(visits := n.visits + 1, totalScore := n.totalScore + score)
  }

  /** The arena after update(score) on every node of the parent chain from
      `n` up to the root. */
  function UpdateChain(nodes: seq<McNode>, n: int, score: int): (r: seq<McNode>)
    requires WellFormed(nodes) && -1 <= n < |nodes|
    ensures WellFormed(r) && |r| == |nodes|
    ensures forall k :: 0 <= k < |r| ==> r[k].parent == nodes[k].parent && r[k].children == nodes[k].children
    ensures forall k :: 0 <= k < |r| ==> r[k].move == nodes[k].move
    decreases n + 1
  {
    if n == -1 then nodes
    else
      var next := nodes[n := Updated(nodes[n], score)];
      assert forall k :: 0 <= k < |next| ==> next[k].parent == nodes[k].parent && next[k].children == nodes[k].children;
      UpdateChain(next, nodes[n].parent, score)
  }

  /** The tree of one getMove call. */
  class MonteCarloTree {
    var nodes: seq<McNode>

    ghost predicate Valid()
      reads this
    {
      WellFormed(nodes)
    }

    /** The root: new MonteCarloNode(current), with move NEUTRAL and no parent. */
    constructor (current: int)
      ensures Valid()
      ensures nodes == [McNode(current, Neutral, -1, [], 0, 0)]
    {
      nodes := [McNode(current, Neutral, -1, [], 0, 0)];
    }

    /** `node.addChild(new MonteCarloNode(nodeIndex, move, node))`: the new
        node comes last and is the last child of node `k`. */
    method AddChild(k: int, nodeIndex: int, move: Move) returns (child: int)
      requires Valid() && 0 <= k < |nodes|
      modifies this
      ensures Valid() && child == |old(nodes)|
      ensures nodes == old(nodes)[k := old(nodes)[k].(children := old(nodes)[k].children + [child])] +
                       [McNode(nodeIndex, move, k, [], 0, 0)]
    {
      child := |nodes|;
      nodes := nodes[k := nodes[k].(children := nodes[k].children + [child])] + [McNode(nodeIndex, move, k, [], 0, 0)];
      forall j, i | 0 <= j < |nodes| && 0 <= i < |nodes[j].children|
        ensures j < nodes[j].children[i] < |nodes| && nodes[nodes[j].children[i]].parent == j
      {
        if j < child && !(j == k && i == |old(nodes)[k].children|) {
          assert nodes[j].children[i] == old(nodes)[j].children[i];
        }
      }
    }

    /** getChildWithMove: the first child with the move, or None (`null`). */
    method GetChildWithMove(k: int, m: Move) returns (r: Option<int>)
      requires Valid() && 0 <= k < |nodes|
      ensures r == ChildWithMove(nodes, k, m)
    {
      var children := nodes[k].children;
      for i := 0 to |children|
        invariant FirstWithMove(nodes, children[i..], m) == FirstWithMove(nodes, children, m)
      {
        assert children[i..][1..] == children[i + 1..];
        if nodes[children[i]].move == m {
          return Some(children[i]);
        }
      }
      return None;
    }

    /** getRandomChild: `children.get(random.nextInt(children.size()))`;
        nextInt(0) throws IllegalArgumentException. */
    method GetRandomChild(k: int) returns (r: Result<int>)
      requires Valid() && 0 <= k < |nodes|
      ensures nodes[k].children == [] ==> r == Err(IllegalArgument)
      ensures nodes[k].children != [] ==> r.Ok? && r.value in nodes[k].children
    {
      var children := nodes[k].children;
      if |children| == 0 {
        return Err(IllegalArgument);
      }
      var i :| 0 <= i < |children|;
      return Ok(children[i]);
    }

    /** UCTSelectChild: a running maximum over the children, seeded with
        -infinity and `null`, replaced only by a strictly greater value. */
    method UctSelectChild(k: int, uct: (McNode, McNode) -> real) returns (selected: Option<int>)
      requires Valid() && 0 <= k < |nodes|
      ensures selected == UctChild(nodes, k, uct)
    {
      ghost var vals := ChildValues(nodes, k, uct);
      var children := nodes[k].children;
      var maxUct := NegInf;
      selected := None;
      ghost var pos: Option<nat> := None;
      for i := 0 to |children|
        invariant ArgMaxFrom(vals, i, maxUct, pos) == FirstArgMax(vals)
        invariant pos.Some? ==> pos.value < i
        invariant selected == if pos.None? then None else Some(children[pos.value])
      {
        var child := children[i];
        var uctValue := UctValue(uct, nodes[k], nodes[child]);
        if Less(maxUct, uctValue) {
          maxUct := uctValue;
          selected := Some(child);
          pos := Some(i);
        }
      }
    }

    /** getBestChild: a running maximum of `totalScore / visits` over the
        children, seeded with -infinity and `null`. */
    method GetBestChild(k: int) returns (best: Option<int>)
      requires Valid() && 0 <= k < |nodes|
      ensures best == BestChild(nodes, k)
    {
      ghost var vals := ChildRatios(nodes, k);
      var children := nodes[k].children;
      var bestScore := NegInf;
      best := None;
      ghost var pos: Option<nat> := None;
      for i := 0 to |children|
        invariant ArgMaxFrom(vals, i, bestScore, pos) == FirstArgMax(vals)
        invariant pos.Some? ==> pos.value < i
        invariant best == if pos.None? then None else Some(children[pos.value])
      {
        var child := children[i];
        var childScore := Ratio(nodes[child].totalScore, nodes[child].visits);
        if Less(bestScore, childScore) {
          bestScore := childScore;
          best := Some(child);
          pos := Some(i);
        }
      }
    }

    /** select: descend by UCTSelectChild while the node has children. */
    method Select(uct: (McNode, McNode) -> real) returns (leaf: int)
      requires Valid()
      ensures leaf == SelectFrom(nodes, 0, uct)
    {
      leaf := 0;
      while nodes[leaf].children != []
        invariant 0 <= leaf < |nodes|
        invariant SelectFrom(nodes, leaf, uct) == SelectFrom(nodes, 0, uct)
        decreases |nodes| - leaf
      {
        UctChildNoneIffLeaf(nodes, leaf, uct);
        var next := UctSelectChild(leaf, uct);
        leaf := next.value;
      }
      UctChildNoneIffLeaf(nodes, leaf, uct);
    }

    /** expand: the first non-NEUTRAL move without a child gets one, at the
        node `landing(move)` that a copy of the game advanced by that move
        reaches, and the new child is returned; when every move has a child,
        a random child is. */
    method Expand(k: int, landing: Move -> int) returns (r: Result<int>)
      requires Valid() && 0 <= k < |nodes|
      modifies this
      ensures Valid()
      ensures match FirstMissing(old(nodes), k, LegalMoves)
        case Some(m) =>
          && r == Ok(|old(nodes)|)
          && nodes == old(nodes)[k := old(nodes)[k].(children := old(nodes)[k].children + [|old(nodes)|])] +
                      [McNode(landing(m), m, k, [], 0, 0)]
        case None => nodes == old(nodes) && r.Ok? && r.value in nodes[k].children
    {
      var legalMoves := LegalMoves;
      for i := 0 to |legalMoves|
        invariant nodes == old(nodes)
        invariant FirstMissing(nodes, k, legalMoves[i..]) == FirstMissing(nodes, k, legalMoves)
      {
        var move := legalMoves[i];
        var newNodeIndex := landing(move);
        assert legalMoves[i..][1..] == legalMoves[i + 1..];
        var existingChild := GetChildWithMove(k, move);
        if existingChild.None? {
          assert FirstMissing(nodes, k, legalMoves[i..]) == Some(move);
          var newChild := AddChild(k, newNodeIndex, move);
          return Ok(newChild);
        }
      }
      assert legalMoves[|legalMoves|..] == [];
      NoneMissingHasChildren(nodes, k, legalMoves);
      r := GetRandomChild(k);
    }

    /** backpropagate: update(score) on each node from `n` up to the root. */
    method Backpropagate(n: int, score: int)
      requires Valid() && 0 <= n < |nodes|
      modifies this
      ensures Valid()
      ensures nodes == UpdateChain(old(nodes), n, score)
    {
      var node := n;
      while node != -1
        invariant WellFormed(nodes) && -1 <= node < |nodes|
        invariant UpdateChain(nodes, node, score) == UpdateChain(old(nodes), n, score)
        decreases node + 1
      {
        var up := nodes[node].parent;
        nodes := nodes[node := Updated(nodes[node], score)];
        node := up;
      }
    }
  }

  // ----- the shape the search builds

  /** The tree is a chain from the root: node k+1 is the only child of node
      k, every node but the root carries UP, and the last node is a leaf. */
  ghost predicate IsChain(nodes: seq<McNode>)
  {
    && |nodes| > 0
    && nodes[0].parent == -1 && nodes[0].move == Neutral
    && (forall k :: 0 < k < |nodes| ==> nodes[k].parent == k - 1 && nodes[k].move == Up)
    && (forall k :: 0 <= k < |nodes| - 1 ==> nodes[k].children == [k + 1])
    && nodes[|nodes| - 1].children == []
  }

  lemma ChainWellFormed(nodes: seq<McNode>)
    requires IsChain(nodes)
    ensures WellFormed(nodes)
  {
  }

  /** Select on a chain reaches its last node. */
  lemma {:induction false} ChainSelect(nodes: seq<McNode>, k: int, uct: (McNode, McNode) -> real)
    requires IsChain(nodes) && 0 <= k < |nodes|
    ensures SelectFrom(nodes, k, uct) == |nodes| - 1
    decreases |nodes| - k
  {
    UctChildNoneIffLeaf(nodes, k, uct);
    if k < |nodes| - 1 {
      assert UctChild(nodes, k, uct) == Some(k + 1);
      ChainSelect(nodes, k + 1, uct);
    }
  }

  /** Updating the chain from node `n` updates exactly the nodes 0 .. n. */
  lemma {:induction false} ChainUpdate(nodes: seq<McNode>, n: int, score: int)
    requires WellFormed(nodes) && -1 <= n < |nodes|
    requires forall k :: 0 < k <= n ==> nodes[k].parent == k - 1
    ensures forall k :: 0 <= k < |nodes| ==>
      UpdateChain(nodes, n, score)[k] == if k <= n then Updated(nodes[k], score) else nodes[k]
    decreases n + 1
  {
    if n != -1 {
      var next := nodes[n := Updated(nodes[n], score)];
      ChainUpdate(next, nodes[n].parent, score);
    }
  }

  /** The statistics after `i` rounds: the root was visited `i` times and
      node k, created in round k, `i - k + 1` times. */
  ghost predicate Visits(nodes: seq<McNode>)
    requires |nodes| > 0
  {
    && nodes[0].visits == |nodes| - 1
    && forall k :: 0 < k < |nodes| ==> nodes[k].visits == |nodes| - k
  }

  /** The chain after expand gave its last node an UP child landing on
      `nodeIndex`. */
  function Grown(nodes: seq<McNode>, nodeIndex: int): seq<McNode>
    requires |nodes| > 0
  {
    var last := |nodes| - 1;
    nodes[last := nodes[last].(children := nodes[last].children + [|nodes|])] +
      [McNode(nodeIndex, Up, last, [], 0, 0)]
  }

  /** Growing a chain at its end gives a chain. */
  lemma GrownChain(nodes: seq<McNode>, nodeIndex: int)
    requires IsChain(nodes)
    ensures IsChain(Grown(nodes, nodeIndex)) && WellFormed(Grown(nodes, nodeIndex))
  {
    var g := Grown(nodes, nodeIndex);
    assert forall k :: 0 <= k < |nodes| - 1 ==> g[k] == nodes[k];
    assert IsChain(g);
  }

  /** A round keeps the chain shape and the visit counts, one node longer. */
  lemma ChainRound(nodes: seq<McNode>, nodeIndex: int, score: int)
    requires IsChain(nodes) && Visits(nodes)
    ensures IsChain(Grown(nodes, nodeIndex)) && WellFormed(Grown(nodes, nodeIndex))
    ensures var r := UpdateChain(Grown(nodes, nodeIndex), |nodes|, score);
      IsChain(r) && Visits(r) && |r| == |nodes| + 1 && r[0].totalScore == nodes[0].totalScore + score
  {
    var g := Grown(nodes, nodeIndex);
    GrownChain(nodes, nodeIndex);
    ChainUpdate(g, |nodes|, score);
    var r := UpdateChain(g, |nodes|, score);
    assert forall k :: 0 <= k < |r| ==> r[k] == Updated(g[k], score);
    assert forall k :: 0 <= k < |nodes| - 1 ==> g[k] == nodes[k];
  }

  /** One round of getMove's loop on a chain: select reaches the last node,
      expand gives it an UP child, and backpropagate updates the whole
      chain. The tree stays a chain, one node longer. */
  method Round(t: MonteCarloTree, uct: (McNode, McNode) -> real, landing: Move -> int, score: int)
    requires t.Valid() && IsChain(t.nodes) && Visits(t.nodes)
    modifies t
    ensures t.Valid() && IsChain(t.nodes) && Visits(t.nodes)
    ensures |t.nodes| == |old(t.nodes)| + 1
    ensures t.nodes[0].totalScore == old(t.nodes[0].totalScore) + score
  {
    ghost var o := t.nodes;
    var selectedNode := t.Select(uct);
    ChainSelect(o, 0, uct);
    LeafMissesFirst(o, selectedNode, LegalMoves);
    var expandedNode := t.Expand(selectedNode, landing);
    assert t.nodes == Grown(o, landing(Up));
    ChainRound(o, landing(Up), score);
    t.Backpropagate(expandedNode.value, score);
  }

  /** getBestMove: `rootNode.getBestChild().getMove()`, which throws when
      there is no best child. */
  method GetBestMove(t: MonteCarloTree) returns (outcome: Outcome)
    requires t.Valid()
    ensures outcome == match BestChild(t.nodes, 0)
      case None => Thrown(NullPointer)
      case Some(c) => Returned(t.nodes[c].move)
  {
    var best := t.GetBestChild(0);
    if best.None? {
      return Thrown(NullPointer);
    }
    return Returned(t.nodes[best.value].move);
  }

  /** getMove. `landings(i, m)` is the node a copy of the game reaches by
      the move `m` in round `i`. Every round expands the leaf at the end of
      a chain with the first non-NEUTRAL move, so the tree is a chain of UP
      moves and the move returned is always UP. */
  method GetMove(current: int, landings: (int, Move) -> int, scores: seq<int>,
                 uct: (McNode, McNode) -> real)
    returns (outcome: Outcome, ghost tree: seq<McNode>)
    requires |scores| == Simulations
    ensures IsChain(tree) && |tree| == Simulations + 1 && Visits(tree)
    ensures tree[0].totalScore == Sum(scores)
    ensures outcome == Returned(Up)
  {
    var rootNode := new MonteCarloTree(current);
    for i := 0 to Simulations
      invariant rootNode.Valid() && IsChain(rootNode.nodes) && Visits(rootNode.nodes)
      invariant |rootNode.nodes| == i + 1
      invariant rootNode.nodes[0].totalScore == Sum(scores[..i])
    {
      Round(rootNode, uct, m => landings(i, m), scores[i]);
      assert scores[..i + 1][..i] == scores[..i];
    }
    assert scores[..Simulations] == scores;
    tree := rootNode.nodes;
    VisitedChildIsBest(tree, 0);
    outcome := GetBestMove(rootNode);
  }
}
