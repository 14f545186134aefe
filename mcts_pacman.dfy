/** MCTS: a Pac-Man controller named after Monte Carlo tree search whose
    nodes only count. A node's `visitCount` serves both as its visit counter
    and as the position of its next unexpanded move in `childIndices`, so
    expanding and backpropagating each advance it, and the third round of
    getMove indexes past the array. Rollouts are not modelled: the score of
    the i-th one is the input `scores[i]`. */
module MctsPacman {
  import opened Engine

  /** NUM_SIMULATIONS */
  const NumSimulations := 100

  /** The ordinals of the moves of `ms` other than `skip`, in their order:
      the stream filter that fills `childIndices`. */
  function OrdinalsExcept(ms: seq<Move>, skip: Move): (r: seq<int>)
    ensures forall j :: 0 <= j < |r| ==> 0 <= r[j] < |Moves| && Moves[r[j]] != skip
    ensures |r| <= |ms|
  {
    if ms == [] then []
    else
      OrdinalsExcept(ms[..|ms| - 1], skip) + if ms[|ms| - 1] == skip then [] else [Ordinal(ms[|ms| - 1])]
  }

  /** A move's ordinal is kept exactly when the move is one of `ms` and not `skip`. */
  lemma {:induction false} OrdinalsExceptMembers(ms: seq<Move>, skip: Move, m: Move)
    ensures Ordinal(m) in OrdinalsExcept(ms, skip) <==> m in ms && m != skip
  {
    if ms != [] {
      var init, last := ms[..|ms| - 1], ms[|ms| - 1];
      OrdinalsExceptMembers(init, skip, m);
      assert ms == init + [last];
      if last != skip && Ordinal(m) == Ordinal(last) {
        assert Moves[Ordinal(m)] == m;
      }
    }
  }

  /** `childIndices` of every node. */
  const ChildIndices: seq<int> := OrdinalsExcept(Moves, Neutral)

  /** The four ordinals of UP, RIGHT, DOWN and LEFT, in that order. */
  lemma ChildIndicesValue()
    ensures ChildIndices == [0, 1, 2, 3]
    ensures |ChildIndices| == |Moves| - 1
  {
    var s1, s2, s3, s4: seq<Move> := [Up], [Up, Right], [Up, Right, Down], [Up, Right, Down, Left];
    assert s1[..0] == [];
    assert OrdinalsExcept(s1, Neutral) == [0];
    assert s2[..1] == s1;
    assert OrdinalsExcept(s2, Neutral) == [0, 1];
    assert s3[..2] == s2;
    assert OrdinalsExcept(s3, Neutral) == [0, 1, 2];
    assert s4[..3] == s3;
    assert OrdinalsExcept(s4, Neutral) == [0, 1, 2, 3];
    assert Moves[..4] == s4;
  }

  /** MCTS.Node. The parent, the move (`None` for the root's `null`) and
      both arrays are never reassigned; `children` is never written. */
  class CtNode {
    const parent: CtNode?
    const move: Option<Move>
    var visitCount: int
    var totalScore: int
    const childIndices: array<int>
    const children: array<CtNode?>

    ghost predicate Valid()
      reads childIndices, children
    {
      childIndices[..] == ChildIndices && children.Length == |ChildIndices|
    }

    /** A node as the constructor leaves it. */
    ghost predicate Initial(parent: CtNode?, move: Option<Move>)
      reads this, childIndices, children
    {
      && this.parent == parent && this.move == move
      && visitCount == 0 && totalScore == 0
      && Valid()
      && forall j :: 0 <= j < children.Length ==> children[j] == null
    }

    /** new Node(parent, move, currentNodeIndex); the node index is unused. */
    constructor (parent: CtNode?, move: Option<Move>, currentNodeIndex: int)
      ensures Initial(parent, move)
      ensures fresh(childIndices) && fresh(children)
    {
      this.parent := parent;
      this.move := move;
      visitCount := 0;
      totalScore := 0;
      var indices := ChildIndices;
      childIndices := new int[|indices|](j requires 0 <= j < |indices| => indices[j]);
      children := new CtNode?[|indices|](_ => null);
    }

    /** isFullyExpanded */
    predicate IsFullyExpanded()
      reads this, childIndices
    {
      visitCount == childIndices.Length
    }

    /** selectChild: a fresh child for the move at `childIndices[visitCount]`;
        the array access throws unless `visitCount` is a position in it. */
    method SelectChild() returns (r: Result<CtNode>)
      requires Valid()
      ensures r.Ok? <==> 0 <= visitCount < childIndices.Length
      ensures r.Err? ==> r.error == IndexOutOfBounds
      ensures r.Ok? ==> fresh(r.value) && r.value.Initial(this, Some(Moves[childIndices[visitCount]]))
    {
      if !(0 <= visitCount < childIndices.Length) {
        return Err(IndexOutOfBounds);
      }
      var selectedChildIndex := childIndices[visitCount];
      var child := new CtNode(this, Some(Moves[selectedChildIndex]), -1);
      return Ok(child);
    }

    /** expand: unless fully expanded, a fresh child for the move at
        `childIndices[visitCount]`, and one more visit. A fully expanded
        node throws IllegalStateException; a count past the array throws
        at the array access, before the increment. */
    method Expand() returns (r: Result<CtNode>)
      requires Valid()
      modifies this`visitCount
      ensures old(visitCount) == childIndices.Length ==>
        r == Err(IllegalState) && visitCount == old(visitCount)
      ensures old(visitCount) != childIndices.Length && !(0 <= old(visitCount) < childIndices.Length) ==>
        r == Err(IndexOutOfBounds) && visitCount == old(visitCount)
      ensures 0 <= old(visitCount) < childIndices.Length ==>
        && visitCount == old(visitCount) + 1
        && r.Ok? && fresh(r.value)
        && r.value.Initial(this, Some(Moves[childIndices[old(visitCount)]]))
    {
      if !IsFullyExpanded() {
        if !(0 <= visitCount < childIndices.Length) {
          return Err(IndexOutOfBounds);
        }
        var selectedChildIndex := childIndices[visitCount];
        var selectedMove := Moves[selectedChildIndex];
        visitCount := visitCount + 1;
        var child := new CtNode(this, Some(selectedMove), -1);
        return Ok(child);
      } else {
        return Err(IllegalState);
      }
    }

    /** update(score) */
    method Update(score: int)
      modifies this`visitCount, this`totalScore
      ensures visitCount == old(visitCount) + 1 && totalScore == old(totalScore) + score
    {
      visitCount := visitCount + 1;
      totalScore := totalScore + score;
    }
  }

  /** `path` lists the parent chain of its first node, up to the root. */
  ghost predicate Chain(path: seq<CtNode>)
  {
    && |path| > 0
    && (forall i :: 0 <= i < |path| - 1 ==> path[i].parent == path[i + 1])
    && path[|path| - 1].parent == null
  }

  ghost predicate NoRepeats(path: seq<CtNode>)
  {
    forall i, j :: 0 <= i < j < |path| ==> path[i] != path[j]
  }

  /** select: a fully expanded node recurses into selectChild(), otherwise
      the node is expanded. selectChild on a fully expanded node always
      throws, since `visitCount` is then the length of `childIndices`, so the
      recursive call is never reached: the match below has no `Ok` case. */
  method Select(node: CtNode) returns (r: Result<CtNode>)
    requires node.Valid()
    modifies node`visitCount
    ensures old(node.visitCount) == node.childIndices.Length ==>
      r == Err(IndexOutOfBounds) && node.visitCount == old(node.visitCount)
    ensures old(node.visitCount) != node.childIndices.Length && !(0 <= old(node.visitCount) < node.childIndices.Length) ==>
      r == Err(IndexOutOfBounds) && node.visitCount == old(node.visitCount)
    ensures 0 <= old(node.visitCount) < node.childIndices.Length ==>
      && node.visitCount == old(node.visitCount) + 1
      && r.Ok? && fresh(r.value)
      && r.value.Initial(node, Some(Moves[node.childIndices[old(node.visitCount)]]))
  {
    if node.IsFullyExpanded() {
      var child := node.SelectChild();
      match child
      case Err(e) =>
        return Err(e);
    } else {
      r := node.Expand();
    }
  }

  /** backpropagate: update(score) on the node and each ancestor; `path` is
      that chain. Every node on it gains one visit and the score; no other
      node changes. */
  method Backpropagate(node: CtNode, ghost path: seq<CtNode>, score: int)
    requires Chain(path) && path[0] == node && NoRepeats(path)
    modifies path
    ensures forall i :: 0 <= i < |path| ==>
      path[i].visitCount == old(path[i].visitCount) + 1 && path[i].totalScore == old(path[i].totalScore) + score
  {
    var n: CtNode? := node;
    ghost var j := 0;
    while n != null
      invariant 0 <= j <= |path|
      invariant j < |path| ==> n == path[j]
      invariant j == |path| ==> n == null
      invariant forall i :: 0 <= i < j ==>
        path[i].visitCount == old(path[i].visitCount) + 1 && path[i].totalScore == old(path[i].totalScore) + score
      invariant forall i :: j <= i < |path| ==>
        path[i].visitCount == old(path[i].visitCount) && path[i].totalScore == old(path[i].totalScore)
      decreases |path| - j
    {
      n.Update(score);
      n := n.parent;
      j := j + 1;
    }
  }

  /** `k` is the first position of a maximal visit count among non-null children. */
  ghost predicate IsFirstMostVisited(children: array<CtNode?>, k: int)
    reads children, set j | 0 <= j < children.Length :: children[j]
  {
    && 0 <= k < children.Length
    && (forall j :: 0 <= j < children.Length ==> children[j] != null)
    && (forall j :: 0 <= j < children.Length ==> children[j].visitCount <= children[k].visitCount)
    && (forall j :: 0 <= j < k ==> children[j].visitCount < children[k].visitCount)
  }

  /** `Arrays.stream(children).max(Node::compareVisitCount).orElseThrow(IllegalStateException::new)`:
      the reduction keeps the earlier node on a tie and dereferences both
      nodes it compares, and a lone null result is refused by Optional.of. */
  method MostVisited(children: array<CtNode?>) returns (r: Result<CtNode>)
    ensures children.Length == 0 ==> r == Err(IllegalState)
    ensures (exists j :: 0 <= j < children.Length && children[j] == null) ==> r == Err(NullPointer)
    ensures children.Length > 0 && (forall j :: 0 <= j < children.Length ==> children[j] != null) ==>
      r.Ok? && exists k :: IsFirstMostVisited(children, k) && r.value == children[k]
  {
    if children.Length == 0 {
      return Err(IllegalState);
    }
    var best := children[0];
    ghost var k := 0;
    for i := 1 to children.Length
      invariant 0 <= k < i && best == children[k]
      invariant best != null ==> forall j :: 0 <= j < i ==> children[j] != null
      invariant best != null ==> forall j :: 0 <= j < i ==> children[j].visitCount <= best.visitCount
      invariant best != null ==> forall j :: 0 <= j < k ==> children[j].visitCount < best.visitCount
      invariant best == null ==> i == 1
    {
      var child := children[i];
      if best == null || child == null {
        return Err(NullPointer);
      }
      if best.visitCount < child.visitCount {
        best := child;
        k := i;
      }
    }
    if best == null {
      return Err(NullPointer);
    }
    return Ok(best);
  }

  /** getMove. Each round that expands the root raises its count by two,
      once in expand and once in backpropagate, so the root expands UP
      (position 0) and then DOWN (position 2), skipping RIGHT, and in the
      third round it is fully expanded and selectChild reads
      `childIndices[4]`: getMove always throws
      ArrayIndexOutOfBoundsException. The final maximum over `children` is
      never reached. `expanded` lists the moves of the nodes expanded. */
  method GetMove(current: int, scores: seq<int>) returns (outcome: Outcome, ghost expanded: seq<Move>)
    requires |scores| == NumSimulations
    ensures outcome == Thrown(IndexOutOfBounds)
    ensures expanded == [Up, Down]
  {
    var root := new CtNode(null, None, current);
    ChildIndicesValue();
    expanded := [];
    for i := 0 to NumSimulations
      invariant root.Valid() && root.parent == null
      invariant i <= 2 && root.visitCount == 2 * i
      invariant expanded == [Up, Down][..i]
    {
      var selectedNode := Select(root);
      if selectedNode.Err? {
        return Thrown(selectedNode.error), expanded;
      }
      var node := selectedNode.value;
      expanded := expanded + [node.move.value];
      Backpropagate(node, [node, root], scores[i]);
    }
    assert false;
  }
}
