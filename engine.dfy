/** The game engine's vocabulary, as the controllers see it.
    The engine itself is not part of this model: its queries are the total
    functions held by an `Env` value, and nothing is assumed about them beyond
    what each operation's `requires` states. */
module Engine {

  /** Constants.MOVE, in its declaration order (MOVE.values()). */
  datatype Move = Up | Right | Down | Left | Neutral

  const Moves: seq<Move> := [Up, Right, Down, Left, Neutral]

  /** Enum ordinal of a move. */
  function Ordinal(m: Move): (k: nat)
    ensures k < |Moves| && Moves[k] == m
  {
    match m
    case Up => 0
    case Right => 1
    case Down => 2
    case Left => 3
    case Neutral => 4
  }

  /** Constants.GHOST, in its declaration order (GHOST.values()). */
  datatype GhostId = Blinky | Pinky | Inky | Sue

  const Ghosts: seq<GhostId> := [Blinky, Pinky, Inky, Sue]

  /** Enum ordinal of a ghost. */
  function GhostOrdinal(g: GhostId): (k: nat)
    ensures k < |Ghosts| && Ghosts[k] == g
  {
    match g
    case Blinky => 0
    case Pinky => 1
    case Inky => 2
    case Sue => 3
  }

  /** MOVE.opposite() comes from the engine; all the controllers rely on is
      that it undoes itself. */
  type Involution = f: Move -> Move | forall m :: f(f(m)) == m
    witness (m: Move) => m

  /** Java's Integer.MAX_VALUE, used as a sentinel by the controllers. */
  const IntMax: int := 0x7fff_ffff

  /** The sum of the rollout scores. */
  function Sum(scores: seq<int>): int
  {
    if scores == [] then 0 else Sum(scores[..|scores| - 1]) + scores[|scores| - 1]
  }

  datatype Option<T> = None | Some(value: T)

  /** The exceptions the controllers can raise or let escape. */
  datatype Exception =
    | NullPointer
    | IndexOutOfBounds
    | IllegalArgument
    | IllegalState
    | UnsupportedOperation

  /** What a controller's getMove gives back to the engine: a move, `null`,
      or an exception that escapes it. */
  datatype Outcome = NoDecision | Returned(move: Move) | Thrown(error: Exception)

  datatype Result<T> = Ok(value: T) | Err(error: Exception)

  /** The engine queries consumed by the controllers (Game's maze methods). */
  datatype Env = Env(
    opposite: Involution,
    /** getNeighbour(node, move): the next node, or -1 where there is none */
    neighbour: (int, Move) -> int,
    /** getPossibleMoves(node, lastMoveMade) */
    possibleMoves: (int, Option<Move>) -> seq<Move>,
    /** getPossibleMoves(node) */
    possibleMovesFrom: int -> seq<Move>,
    /** getShortestPathDistance(from, to) */
    distance: (int, int) -> int,
    /** getNextMoveTowardsTarget(from, to, PATH) */
    nextTowards: (int, int) -> Move,
    /** getNextMoveAwayFromTarget(from, to, PATH) */
    nextAway: (int, int) -> Move,
    /** getApproximateNextMoveAwayFromTarget(from, to, lastMove, PATH);
        None when the engine throws ArrayIndexOutOfBoundsException */
    approxAway: (int, int, Move) -> Option<Move>,
    isJunction: int -> bool,
    neighbouringNodes: int -> seq<int>,
    /** number of nodes of the current maze */
    nodeCount: nat
  )

  /** Every move the engine offers at a node of the maze leads to a node of
      the maze: the maze is a finite graph on 0 .. nodeCount-1. */
  ghost predicate ClosedMaze(env: Env)
  {
    forall n, m ::
      0 <= n < env.nodeCount && m in env.possibleMovesFrom(n) ==>
        0 <= env.neighbour(n, m) < env.nodeCount
  }

  /** A sequence without repeated elements. */
  ghost predicate Distinct<T>(s: seq<T>)
  {
    forall i, j :: 0 <= i < j < |s| ==> s[i] != s[j]
  }

  /** Appending a new element keeps a sequence free of repeats. */
  lemma AppendDistinct(s: seq<int>, x: int)
    requires Distinct(s) && x !in s
    ensures Distinct(s + [x])
  {
    var t := s + [x];
    forall i, j | 0 <= i < j < |t|
      ensures t[i] != t[j]
    {
      assert t[i] == s[i];
      if j < |s| {
        assert t[j] == s[j];
      }
    }
  }

  /** Adding an element of `nodes` that `visited` lacks shrinks what is left. */
  lemma Shrinks(nodes: set<int>, visited: set<int>, node: int)
    requires node in nodes && node !in visited
    ensures |nodes - (visited + {node})| < |nodes - visited|
  {
    assert nodes - visited == (nodes - (visited + {node})) + {node};
  }

  /** The opposite of a move is the only move whose opposite is the given one. */
  lemma OppositeUnique(opposite: Involution, m: Move, last: Move)
    ensures opposite(m) == last <==> m == opposite(last)
  {
    assert opposite(opposite(m)) == m;
    assert opposite(opposite(last)) == last;
  }
}
