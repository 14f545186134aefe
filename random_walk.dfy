/** RandomWalk: a random move among MOVE.values() that does not reverse
    the last move. getRandomMove fills an array one shorter than
    MOVE.values() through a running index; AStar carries an identical copy
    and uses this one. `nextInt` is a nondeterministic choice. */
module RandomWalk {
  import opened Engine

  /** `move.opposite().equals(lastMove)`: the move turns back; a null
      lastMove equals no move. */
  predicate TurnsBack(opposite: Involution, lastMove: Option<Move>, m: Move)
  {
    lastMove == Some(opposite(m))
  }

  /** The moves of `ms` that survive the filter, in their order. */
  function Kept(opposite: Involution, lastMove: Option<Move>, ms: seq<Move>): seq<Move>
  {
    if ms == [] then []
    else
      Kept(opposite, lastMove, ms[..|ms| - 1]) +
        (if TurnsBack(opposite, lastMove, ms[|ms| - 1]) then [] else [ms[|ms| - 1]])
  }

  /** A move survives exactly when it is one of `ms` and does not turn back. */
  lemma {:induction false} KeptMembers(opposite: Involution, lastMove: Option<Move>, ms: seq<Move>, m: Move)
    ensures m in Kept(opposite, lastMove, ms) <==> m in ms && !TurnsBack(opposite, lastMove, m)
  {
    if ms != [] {
      KeptMembers(opposite, lastMove, ms[..|ms| - 1], m);
      assert ms == ms[..|ms| - 1] + [ms[|ms| - 1]];
    }
  }

  /** Filtering a prefix gives a prefix of the filtered sequence. */
  lemma {:induction false} KeptPrefix(opposite: Involution, lastMove: Option<Move>, ms: seq<Move>, i: nat)
    requires i <= |ms|
    ensures Kept(opposite, lastMove, ms[..i]) <= Kept(opposite, lastMove, ms)
    decreases |ms|
  {
    if i < |ms| {
      KeptPrefix(opposite, lastMove, ms[..|ms| - 1], i);
      assert ms[..|ms| - 1][..i] == ms[..i];
    } else {
      assert ms[..i] == ms;
    }
  }

  /** Filtering one more move appends it unless it turns back. */
  lemma KeptSnoc(opposite: Involution, lastMove: Option<Move>, ms: seq<Move>, i: nat)
    requires i < |ms|
    ensures Kept(opposite, lastMove, ms[..i + 1]) ==
      Kept(opposite, lastMove, ms[..i]) + if TurnsBack(opposite, lastMove, ms[i]) then [] else [ms[i]]
    ensures TurnsBack(opposite, lastMove, ms[i]) ==>
      Kept(opposite, lastMove, ms[..i + 1]) == Kept(opposite, lastMove, ms[..i])
    ensures ms[..i + 1] == ms[..i] + [ms[i]]
  {
    assert ms[..i + 1][..i] == ms[..i];
    assert Kept(opposite, lastMove, ms[..i]) + [] == Kept(opposite, lastMove, ms[..i]);
  }

  /** Without a last move nothing is filtered; with one, a sequence without
      repeats loses one element exactly when it holds the reverse of it. */
  lemma {:induction false} KeptLength(opposite: Involution, lastMove: Option<Move>, ms: seq<Move>)
    requires Distinct(ms)
    ensures lastMove.None? ==> Kept(opposite, lastMove, ms) == ms
    ensures lastMove.Some? ==>
      |Kept(opposite, lastMove, ms)| == |ms| - if opposite(lastMove.value) in ms then 1 else 0
  {
    if ms != [] {
      var init, last := ms[..|ms| - 1], ms[|ms| - 1];
      assert ms == init + [last];
      assert Distinct(init);
      KeptLength(opposite, lastMove, init);
      var dropped := TurnsBack(opposite, lastMove, last);
      assert |Kept(opposite, lastMove, ms)| == |Kept(opposite, lastMove, init)| + if dropped then 0 else 1;
      if lastMove.Some? {
        var back := opposite(lastMove.value);
        OppositeUnique(opposite, last, lastMove.value);
        assert dropped <==> last == back;
        assert back in ms <==> back in init || back == last;
        if dropped {
          assert back !in init;
        }
      }
    }
  }

  /** Over MOVE.values() the filter keeps all five moves for a null last
      move and exactly four, the length of the array, for any other. */
  lemma KeptFromAllMoves(opposite: Involution, lastMove: Option<Move>)
    ensures lastMove.None? ==> Kept(opposite, lastMove, Moves) == Moves
    ensures lastMove.Some? ==> |Kept(opposite, lastMove, Moves)| == |Moves| - 1
  {
    assert Distinct(Moves);
    KeptLength(opposite, lastMove, Moves);
    if lastMove.Some? {
      assert Moves[Ordinal(opposite(lastMove.value))] == opposite(lastMove.value);
    }
  }

  /** getRandomMove. `filled` is the final content of filteredMoves (`None`
      for null), when the loop finishes. For a non-null last move exactly
      one move is filtered, the array is full and the move drawn from it
      does not turn back; for a null one the fifth write runs past the
      array. */
  method GetRandomMove(opposite: Involution, lastMove: Option<Move>)
    returns (outcome: Outcome, ghost filled: seq<Option<Move>>)
    ensures lastMove.None? <==> outcome == Thrown(IndexOutOfBounds)
    ensures lastMove.Some? ==>
      && |filled| == |Moves| - 1 == |Kept(opposite, lastMove, Moves)|
      && (forall j :: 0 <= j < |filled| ==> filled[j] == Some(Kept(opposite, lastMove, Moves)[j]))
      && outcome.Returned? && outcome.move in Kept(opposite, lastMove, Moves)
  {
    var possibleMoves := Moves;
    KeptFromAllMoves(opposite, lastMove);
    var filteredMoves := new Option<Move>[|possibleMoves| - 1](_ => None);
    var overflow := Fill(opposite, lastMove, possibleMoves, filteredMoves);
    filled := filteredMoves[..];
    if overflow {
      return Thrown(IndexOutOfBounds), filled;
    }
    var k :| 0 <= k < filteredMoves.Length;
    assert Kept(opposite, lastMove, Moves)[k] in Kept(opposite, lastMove, Moves);
    match filteredMoves[k]
    case None =>
      outcome := NoDecision;
    case Some(m) =>
      outcome := Returned(m);
  }

  /** The loop of getRandomMove: each move of `possibleMoves` that does not
      turn back is written to the next free slot of `filteredMoves`; the
      loop stops with `overflow` when a write would run past the array. */
  method Fill(opposite: Involution, lastMove: Option<Move>, possibleMoves: seq<Move>,
              filteredMoves: array<Option<Move>>)
    returns (overflow: bool)
    requires forall j :: 0 <= j < filteredMoves.Length ==> filteredMoves[j] == None
    modifies filteredMoves
    ensures overflow <==> |Kept(opposite, lastMove, possibleMoves)| > filteredMoves.Length
    ensures !overflow ==> forall j :: 0 <= j < |Kept(opposite, lastMove, possibleMoves)| ==>
      filteredMoves[j] == Some(Kept(opposite, lastMove, possibleMoves)[j])
  {
    var index := 0;
    ghost var kept: seq<Move> := [];
    for i := 0 to |possibleMoves|
      invariant kept == Kept(opposite, lastMove, possibleMoves[..i])
      invariant index == |kept| <= filteredMoves.Length
      invariant forall j :: 0 <= j < index ==> filteredMoves[j] == Some(kept[j])
      invariant forall j :: index <= j < filteredMoves.Length ==> filteredMoves[j] == None
    {
      var move := possibleMoves[i];
      KeptSnoc(opposite, lastMove, possibleMoves, i);
      if !TurnsBack(opposite, lastMove, move) {
        if index == filteredMoves.Length {
          KeptPrefix(opposite, lastMove, possibleMoves, i + 1);
          return true;
        }
        filteredMoves[index] := Some(move);
        index := index + 1;
        kept := kept + [move];
      }
    }
    assert possibleMoves[..|possibleMoves|] == possibleMoves;
    return false;
  }

  /** getMove: the random move for the last move Pac-Man made; it never
      turns back. */
  method GetMove(opposite: Involution, lastMoveMade: Option<Move>) returns (outcome: Outcome)
    ensures lastMoveMade.None? ==> outcome == Thrown(IndexOutOfBounds)
    ensures lastMoveMade.Some? ==> outcome.Returned? && opposite(outcome.move) != lastMoveMade.value
  {
    ghost var filled;
    outcome, filled := GetRandomMove(opposite, lastMoveMade);
    if outcome.Returned? {
      KeptMembers(opposite, lastMoveMade, Moves, outcome.move);
    }
  }
}
