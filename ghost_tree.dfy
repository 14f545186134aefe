/** The search tree of the MCTS ghost (MCTS_POCommGhost.Node and the tree
    operations of the controller). The Java nodes are objects linked by
    `parent` references and `children` lists; here they live in an arena, a
    sequence of node values in which a node is named by its index, the root is
    node 0 and `parent == -1` stands for `null`. The UCT formula is an abstract
    real-valued function `uct(parent, child)`; only its rule for unvisited
    children (+infinity) is kept. */
module GhostTree {
  import opened Engine
  import opened ExtReal

  datatype Node = Node(parent: int, move: Move, visits: int, score: int,
                       ghostPos: int, pacPos: int, children: seq<int>)

  /** A child the expansion can create: the ghost move and the two positions
      after the ghost and Ms Pac-Man have moved. */
  datatype Child = Child(move: Move, ghostPos: int, pacPos: int)

  /** The arena is a tree rooted at node 0: every other node has an earlier
      parent, and a node's children come after it and point back to it. */
  ghost predicate WellFormed(nodes: seq<Node>)
  {
    && |nodes| > 0
    && nodes[0].parent == -1
    && (forall k :: 0 < k < |nodes| ==> 0 <= nodes[k].parent < k)
    && (forall k, i :: 0 <= k < |nodes| && 0 <= i < |nodes[k].children| ==>
          k < nodes[k].children[i] < |nodes| && nodes[nodes[k].children[i]].parent == k)
  }

  /** isTerminal */
  predicate IsTerminal(n: Node)
  {
    n.children == []
  }

  /** getUCTValue: +infinity for a child never visited, otherwise the value
      of the (abstract) UCT formula. */
  function UctValue(uct: (Node, Node) -> real, parent: Node, child: Node): Ext
  {
    if child.visits == 0 then PosInf else Fin(uct(parent, child))
  }

  /** The UCT values of the children of node `k`, in the order of its list. */
  function ChildValues(nodes: seq<Node>, k: int, uct: (Node, Node) -> real): (vals: seq<Ext>)
    requires WellFormed(nodes) && 0 <= k < |nodes|
    ensures |vals| == |nodes[k].children|
    ensures forall i :: 0 <= i < |vals| ==> vals[i].Fin? || vals[i].PosInf?
  {
    var cs := nodes[k].children;
    seq(|cs|, i requires 0 <= i < |cs| => UctValue(uct, nodes[k], nodes[cs[i]]))
  }

  /** What getBestChild returns: the child at the first position of maximal
      UCT value, or None (`null`). */
  function BestChild(nodes: seq<Node>, k: int, uct: (Node, Node) -> real): (r: Option<int>)
    requires WellFormed(nodes) && 0 <= k < |nodes|
    ensures r.Some? ==> r.value in nodes[k].children
    ensures r.Some? ==> k < r.value < |nodes| && nodes[r.value].parent == k
  {
    var vals := ChildValues(nodes, k, uct);
    FirstArgMaxCorrect(vals);
    match FirstArgMax(vals)
    case None => None
    case Some(i) => Some(nodes[k].children[i])
  }

  /** getBestChild gives `null` exactly for a node without children: no UCT
      value is NaN or -infinity. */
  lemma BestChildNoneIffLeaf(nodes: seq<Node>, k: int, uct: (Node, Node) -> real)
    requires WellFormed(nodes) && 0 <= k < |nodes|
    ensures BestChild(nodes, k, uct).None? <==> nodes[k].children == []
  {
    var vals := ChildValues(nodes, k, uct);
    if vals != [] {
      FirstArgMaxExists(vals);
    }
  }

  /** The child getBestChild returns sits at the first position of a maximal
      UCT value: no child scores higher and every earlier child lower. */
  lemma BestChildIsFirstMax(nodes: seq<Node>, k: int, uct: (Node, Node) -> real)
    requires WellFormed(nodes) && 0 <= k < |nodes|
    requires BestChild(nodes, k, uct).Some?
    ensures exists i :: (
      && 0 <= i < |nodes[k].children|
      && nodes[k].children[i] == BestChild(nodes, k, uct).value
      && (forall j :: 0 <= j < |nodes[k].children| ==>
            !Less(ChildValues(nodes, k, uct)[i], ChildValues(nodes, k, uct)[j]))
      && (forall j :: 0 <= j < i ==>
            Less(ChildValues(nodes, k, uct)[j], ChildValues(nodes, k, uct)[i])))
  {
    var vals := ChildValues(nodes, k, uct);
    FirstArgMaxCorrect(vals);
    var i := FirstArgMax(vals).value;
    assert nodes[k].children[i] == BestChild(nodes, k, uct).value;
  }

  /** The first unvisited child beats every visited one, whatever their UCT. */
  lemma FirstUnvisitedWins(nodes: seq<Node>, k: int, uct: (Node, Node) -> real, i: nat)
    requires WellFormed(nodes) && 0 <= k < |nodes|
    requires i < |nodes[k].children| && nodes[nodes[k].children[i]].visits == 0
    requires forall j :: 0 <= j < i ==> nodes[nodes[k].children[j]].visits != 0
    ensures BestChild(nodes, k, uct) == Some(nodes[k].children[i])
  {
    FirstInfinityWins(ChildValues(nodes, k, uct), i);
  }

  /** `k` lies on the parent chain that starts at `n` (`n` included). */
  ghost predicate OnChain(nodes: seq<Node>, n: int, k: int)
    requires WellFormed(nodes) && -1 <= n < |nodes|
    decreases n + 1
  {
    n != -1 && (n == k || OnChain(nodes, nodes[n].parent, k))
  }

  lemma {:induction false} ChainBelow(nodes: seq<Node>, n: int, k: int)
    requires WellFormed(nodes) && -1 <= n < |nodes| && OnChain(nodes, n, k)
    ensures 0 <= k <= n
    decreases n + 1
  {
    if n != k {
      ChainBelow(nodes, nodes[n].parent, k);
    }
  }

  lemma {:induction false} ChainTransitive(nodes: seq<Node>, a: int, b: int, c: int)
    requires WellFormed(nodes) && -1 <= a < |nodes| && 0 <= b < |nodes|
    requires OnChain(nodes, a, b) && OnChain(nodes, b, c)
    ensures OnChain(nodes, a, c)
    decreases a + 1
  {
    if a != b {
      ChainTransitive(nodes, nodes[a].parent, b, c);
    }
  }

  /** Every parent chain ends at the root. */
  lemma {:induction false} ChainReachesRoot(nodes: seq<Node>, n: int)
    requires WellFormed(nodes) && 0 <= n < |nodes|
    ensures OnChain(nodes, n, 0)
    decreases n
  {
    if n != 0 {
      ChainReachesRoot(nodes, nodes[n].parent);
    }
  }

  /** What select computes: the leaf reached from `k` by repeated
      getBestChild. */
  function SelectFrom(nodes: seq<Node>, k: int, uct: (Node, Node) -> real): (leaf: int)
    requires WellFormed(nodes) && 0 <= k < |nodes|
    ensures k <= leaf < |nodes| && nodes[leaf].children == []
    ensures OnChain(nodes, leaf, k)
    decreases |nodes| - k
  {
    BestChildNoneIffLeaf(nodes, k, uct);
    match BestChild(nodes, k, uct)
    case None => k
    case Some(c) =>
      var leaf := SelectFrom(nodes, c, uct);
      assert OnChain(nodes, c, k);
      ChainTransitive(nodes, leaf, c, k);
      leaf
  }

  /** The row of the expansion for one ghost move: one child per Ms Pac-Man
      move whose two neighbour lookups both succeed, in the order of `pms`. */
  function Row(env: Env, ghostPos: int, pacPos: int, gm: Move, pms: seq<Move>): seq<Child>
    decreases |pms|
  {
    if pms == [] then []
    else
      var g := env.neighbour(ghostPos, gm);
      var p := env.neighbour(pacPos, pms[|pms| - 1]);
      Row(env, ghostPos, pacPos, gm, pms[..|pms| - 1]) +
        (if g != -1 && p != -1 then [Child(gm, g, p)] else [])
  }

  /** The rows of all ghost moves, one after the other. */
  function Pairs(env: Env, ghostPos: int, pacPos: int, gms: seq<Move>, pms: seq<Move>): seq<Child>
    decreases |gms|
  {
    if gms == [] then []
    else Pairs(env, ghostPos, pacPos, gms[..|gms| - 1], pms) +
           Row(env, ghostPos, pacPos, gms[|gms| - 1], pms)
  }

  /** The children expand adds to a node: the ghost moves come from
      getPossibleMoves(ghostPosition, move), Ms Pac-Man's from
      getPossibleMoves(pacManPosition). */
  function Candidates(env: Env, n: Node): seq<Child>
  {
    Pairs(env, n.ghostPos, n.pacPos, env.possibleMoves(n.ghostPos, Some(n.move)),
          env.possibleMovesFrom(n.pacPos))
  }

  ghost predicate ValidPair(env: Env, ghostPos: int, pacPos: int, gms: seq<Move>, pms: seq<Move>, c: Child)
  {
    && c.move in gms
    && c.ghostPos == env.neighbour(ghostPos, c.move) != -1
    && exists pm :: pm in pms && c.pacPos == env.neighbour(pacPos, pm) != -1
  }

  lemma {:induction false} RowExact(env: Env, ghostPos: int, pacPos: int, gm: Move, pms: seq<Move>, c: Child)
    ensures c in Row(env, ghostPos, pacPos, gm, pms) <==>
      c.move == gm && ValidPair(env, ghostPos, pacPos, [gm], pms, c)
    decreases |pms|
  {
    if pms != [] {
      var init := pms[..|pms| - 1];
      RowExact(env, ghostPos, pacPos, gm, init, c);
      assert pms == init + [pms[|pms| - 1]];
    }
  }

  /** A child is among the candidates exactly when its ghost move is offered,
      and both the ghost's and (for some offered move) Ms Pac-Man's neighbour
      lookups succeed and give its positions. */
  lemma {:induction false} PairsExact(env: Env, ghostPos: int, pacPos: int, gms: seq<Move>, pms: seq<Move>, c: Child)
    ensures c in Pairs(env, ghostPos, pacPos, gms, pms) <==> ValidPair(env, ghostPos, pacPos, gms, pms, c)
    decreases |gms|
  {
    if gms != [] {
      var init := gms[..|gms| - 1];
      var gm := gms[|gms| - 1];
      PairsExact(env, ghostPos, pacPos, init, pms, c);
      RowExact(env, ghostPos, pacPos, gm, pms, c);
      assert gms == init + [gm];
    }
  }

  /** new Node(parent, move, ghostPosition, pacManPosition) */
  function NewChild(parent: int, c: Child): Node
  {
    Node(parent, c.move, 0, 0, c.ghostPos, c.pacPos, [])
  }

  /** The indices a .. b-1. */
  function Range(a: int, b: int): (r: seq<int>)
    requires a <= b
    ensures |r| == b - a && forall i :: 0 <= i < |r| ==> r[i] == a + i
  {
    seq(b - a, i => a + i)
  }

  /** `nodes` is `o` with the children `cs` appended to node `k`: the new
      nodes come at the end, in order, and nothing else changes. */
  ghost predicate Grown(o: seq<Node>, nodes: seq<Node>, k: int, cs: seq<Child>)
    requires 0 <= k < |o|
  {
    && |nodes| == |o| + |cs|
    && nodes[k] == o[k].(children := o[k].children + Range(|o|, |o| + |cs|))
    && (forall j :: 0 <= j < |o| && j != k ==> nodes[j] == o[j])
    && (forall j :: 0 <= j < |cs| ==> nodes[|o| + j] == NewChild(k, cs[j]))
  }

  /** node.score += score; node.visits++ */
  function Bumped(n: Node, score: int): Node
  {
    n.(visits := n.visits + 1, score := n.score + score)
  }

  /** The arena after backpropagate(n, score): every node on the parent
      chain from `n` has one more visit and the score added; the shape of
      the tree stays. */
  ghost function Backpropagated(nodes: seq<Node>, n: int, score: int): (r: seq<Node>)
    requires WellFormed(nodes) && 0 <= n < |nodes|
    ensures WellFormed(r)
  {
    var r := seq(|nodes|, k requires 0 <= k < |nodes| =>
                   if OnChain(nodes, n, k) then Bumped(nodes[k], score) else nodes[k]);
    SameShape(nodes, r);
    r
  }

  /** The tree of one runMCTS call. */
  class SearchTree {
    var nodes: seq<Node>

    ghost predicate Valid()
      reads this
    {
      WellFormed(nodes)
    }

    /** The root: new Node(null, lastMove, ghostPosition, pacmanIndex). */
    constructor (move: Move, ghostPos: int, pacPos: int)
      ensures Valid()
      ensures nodes == [Node(-1, move, 0, 0, ghostPos, pacPos, [])]
    {
      nodes := [Node(-1, move, 0, 0, ghostPos, pacPos, [])];
    }

    /** getBestChild: a running maximum over the children, seeded with
        -infinity and `null`, replaced only by a strictly greater value. */
    method GetBestChild(k: int, uct: (Node, Node) -> real) returns (best: Option<int>)
      requires Valid() && 0 <= k < |nodes|
      ensures best == BestChild(nodes, k, uct)
    {
      ghost var vals := ChildValues(nodes, k, uct);
      var children := nodes[k].children;
      var bestValue := NegInf;
      best := None;
      ghost var pos: Option<nat> := None;
      var i := 0;
      while i < |children|
        invariant 0 <= i <= |children|
        invariant ArgMaxFrom(vals, i, bestValue, pos) == FirstArgMax(vals)
        invariant pos.Some? ==> pos.value < i
        invariant best == if pos.None? then None else Some(children[pos.value])
      {
        var child := children[i];
        var value := UctValue(uct, nodes[k], nodes[child]);
        if Less(bestValue, value) {
          bestValue := value;
          best := Some(child);
          pos := Some(i);
        }
        i := i + 1;
      }
    }

    /** select: descend by getBestChild while the node has children. */
    method Select(uct: (Node, Node) -> real) returns (leaf: int)
      requires Valid()
      ensures leaf == SelectFrom(nodes, 0, uct)
    {
      leaf := 0;
      while nodes[leaf].children != [] && !IsTerminal(nodes[leaf])
        invariant 0 <= leaf < |nodes|
        invariant SelectFrom(nodes, leaf, uct) == SelectFrom(nodes, 0, uct)
        decreases |nodes| - leaf
      {
        BestChildNoneIffLeaf(nodes, leaf, uct);
        var next := GetBestChild(leaf, uct);
        leaf := next.value;
      }
      BestChildNoneIffLeaf(nodes, leaf, uct);
    }

    /** expand: for every ghost move and every Ms Pac-Man move, in that order,
        add a child when both neighbour lookups succeed. */
    method Expand(k: int, env: Env)
      requires Valid() && 0 <= k < |nodes|
      modifies this
      ensures Valid()
      ensures nodes == Extend(old(nodes), k, Candidates(env, old(nodes[k])))
      ensures Grown(old(nodes), nodes, k, Candidates(env, old(nodes[k])))
    {
      ghost var o := nodes;
      var node := nodes[k];
      var gms := env.possibleMoves(node.ghostPos, Some(node.move));
      var pms := env.possibleMovesFrom(node.pacPos);
      var i := 0;
      while i < |gms|
        invariant 0 <= i <= |gms|
        invariant nodes == Extend(o, k, Pairs(env, node.ghostPos, node.pacPos, gms[..i], pms))
      {
        var ghostMove := gms[i];
        ghost var done := Pairs(env, node.ghostPos, node.pacPos, gms[..i], pms);
        ExpandRow(k, env, node, ghostMove, pms, o, done);
        assert gms[..i + 1][..i] == gms[..i];
        i := i + 1;
      }
      assert gms[..i] == gms;
      ExtendGrows(o, k, Candidates(env, node));
      ExtendWellFormed(o, k, Candidates(env, node));
    }

    /** The inner loop of expand, for one ghost move: a child for each
        Ms Pac-Man move whose two neighbour lookups succeed. */
    method ExpandRow(k: int, env: Env, node: Node, ghostMove: Move, pms: seq<Move>,
                     ghost o: seq<Node>, ghost done: seq<Child>)
      requires 0 <= k < |o| && nodes == Extend(o, k, done)
      modifies this
      ensures nodes == Extend(o, k, done + Row(env, node.ghostPos, node.pacPos, ghostMove, pms))
    {
      assert pms[..0] == [] && done + [] == done;
      var ns := nodes;
      ghost var row: seq<Child> := [];
      var j := 0;
      while j < |pms|
        invariant 0 <= j <= |pms|
        invariant row == Row(env, node.ghostPos, node.pacPos, ghostMove, pms[..j])
        invariant ns == Extend(o, k, done + row)
      {
        var pacmanMove := pms[j];
        var newGhostPosition := env.neighbour(node.ghostPos, ghostMove);
        var newPacManPosition := env.neighbour(node.pacPos, pacmanMove);
        RowSnoc(env, node.ghostPos, node.pacPos, ghostMove, pms, j);
        if newGhostPosition != -1 && newPacManPosition != -1 {
          var c := Child(ghostMove, newGhostPosition, newPacManPosition);
          ExtendSnoc(o, k, done, row, c);
          ns := AddChild(ns, k, c);
          row := row + [c];
        } else {
          assert row + [] == row;
        }
        j := j + 1;
      }
      assert pms[..j] == pms;
      nodes := ns;
    }

    /** backpropagate: walk the parent chain from `n` to the root, adding one
        visit and the score to each node. */
    method Backpropagate(n: int, score: int)
      requires Valid() && 0 <= n < |nodes|
      modifies this
      ensures Valid()
      ensures |nodes| == |old(nodes)|
      ensures forall k :: 0 <= k < |nodes| ==>
        nodes[k] == if OnChain(old(nodes), n, k) then Bumped(old(nodes[k]), score) else old(nodes[k])
    {
      ghost var o := nodes;
      var cur := n;
      while cur != -1
        invariant -1 <= cur < |o| && |nodes| == |o|
        invariant cur != -1 ==> OnChain(o, n, cur)
        invariant forall k :: 0 <= k < |o| ==>
          nodes[k] == if OnChain(o, n, k) && !OnChain(o, cur, k) then Bumped(o[k], score) else o[k]
        decreases cur + 1
      {
        var node := nodes[cur];
        var up := node.parent;
        forall k | 0 <= k < |o|
          ensures OnChain(o, cur, k) <==> k == cur || OnChain(o, up, k)
          ensures k == cur ==> !OnChain(o, up, k)
        {
          if k == cur && OnChain(o, up, k) {
            ChainBelow(o, up, k);
          }
        }
        if up != -1 {
          ChainTransitive(o, n, cur, up);
        }
        nodes := nodes[cur := Bumped(node, score)];
        cur := up;
      }
      SameShape(o, nodes);
    }
  }

  /** `node.children.add(new Node(node, ...))` */
  function AddChild(nodes: seq<Node>, k: int, c: Child): seq<Node>
    requires 0 <= k < |nodes|
  {
    nodes[k := nodes[k].(children := nodes[k].children + [|nodes|])] + [NewChild(k, c)]
  }

  /** The arena after appending the children `cs` to node `k` one by one. */
  function Extend(o: seq<Node>, k: int, cs: seq<Child>): (r: seq<Node>)
    requires 0 <= k < |o|
    ensures |r| == |o| + |cs|
    decreases |cs|
  {
    if cs == [] then o
    else AddChild(Extend(o, k, cs[..|cs| - 1]), k, cs[|cs| - 1])
  }

  /** One more Ms Pac-Man move extends the row by its child, if any. */
  lemma RowSnoc(env: Env, ghostPos: int, pacPos: int, gm: Move, pms: seq<Move>, j: int)
    requires 0 <= j < |pms|
    ensures Row(env, ghostPos, pacPos, gm, pms[..j + 1]) ==
      Row(env, ghostPos, pacPos, gm, pms[..j]) +
        (if env.neighbour(ghostPos, gm) != -1 && env.neighbour(pacPos, pms[j]) != -1
         then [Child(gm, env.neighbour(ghostPos, gm), env.neighbour(pacPos, pms[j]))] else [])
  {
    assert pms[..j + 1][..j] == pms[..j];
  }

  /** Extending by one more child is one more AddChild. */
  lemma ExtendSnoc(o: seq<Node>, k: int, done: seq<Child>, row: seq<Child>, c: Child)
    requires 0 <= k < |o|
    ensures Extend(o, k, done + (row + [c])) == AddChild(Extend(o, k, done + row), k, c)
  {
    assert done + (row + [c]) == (done + row) + [c];
    assert ((done + row) + [c])[..|done + row|] == done + row;
  }

  /** Adding one child keeps the arena a tree. */
  lemma AddChildWellFormed(nodes: seq<Node>, k: int, c: Child)
    requires WellFormed(nodes) && 0 <= k < |nodes|
    ensures WellFormed(AddChild(nodes, k, c))
  {
    var r := AddChild(nodes, k, c);
    forall m, i | 0 <= m < |r| && 0 <= i < |r[m].children|
      ensures m < r[m].children[i] < |r| && r[r[m].children[i]].parent == m
    {
      if m < |nodes| && !(m == k && i == |nodes[k].children|) {
        assert r[m].children[i] == nodes[m].children[i];
      }
    }
  }

  lemma AddChildGrows(o: seq<Node>, prev: seq<Node>, k: int, cs: seq<Child>, c: Child)
    requires 0 <= k < |o| && Grown(o, prev, k, cs)
    ensures Grown(o, AddChild(prev, k, c), k, cs + [c])
  {
    var r := AddChild(prev, k, c);
    assert Range(|o|, |o| + |cs|) + [|prev|] == Range(|o|, |o| + |cs| + 1);
    forall j | 0 <= j < |cs| + 1
      ensures r[|o| + j] == NewChild(k, (cs + [c])[j])
    {
    }
  }

  lemma {:induction false} ExtendWellFormed(o: seq<Node>, k: int, cs: seq<Child>)
    requires WellFormed(o) && 0 <= k < |o|
    ensures WellFormed(Extend(o, k, cs))
    decreases |cs|
  {
    if cs != [] {
      ExtendWellFormed(o, k, cs[..|cs| - 1]);
      AddChildWellFormed(Extend(o, k, cs[..|cs| - 1]), k, cs[|cs| - 1]);
    }
  }

  /** Appending children one by one gives the arena Grown describes: the new
      nodes at the end, in order, and no other node changed. */
  lemma {:induction false} ExtendGrows(o: seq<Node>, k: int, cs: seq<Child>)
    requires 0 <= k < |o|
    ensures Grown(o, Extend(o, k, cs), k, cs)
    decreases |cs|
  {
    if cs == [] {
      assert Range(|o|, |o|) == [];
      assert o[k].children + [] == o[k].children;
    } else {
      var init := cs[..|cs| - 1];
      ExtendGrows(o, k, init);
      AddChildGrows(o, Extend(o, k, init), k, init, cs[|cs| - 1]);
      assert init + [cs[|cs| - 1]] == cs;
    }
  }

  /** Changing visits and scores keeps the tree's shape. */
  lemma SameShape(o: seq<Node>, nodes: seq<Node>)
    requires WellFormed(o) && |nodes| == |o|
    requires forall k :: 0 <= k < |o| ==> nodes[k].parent == o[k].parent && nodes[k].children == o[k].children
    ensures WellFormed(nodes)
  {
  }

  /** backpropagate reaches the node it starts from and the root. */
  lemma BackpropagateReachesRoot(nodes: seq<Node>, n: int)
    requires WellFormed(nodes) && 0 <= n < |nodes|
    ensures OnChain(nodes, n, n) && OnChain(nodes, n, 0)
  {
    ChainReachesRoot(nodes, n);
  }
}
