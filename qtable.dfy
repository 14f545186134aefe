/** The tabular Q-learning shared by QLearning_POCommGhost and Q_RL: a
    HashMap from state-action pairs (node index, move) to doubles read with
    getOrDefault(pair, 0.0), the first-wins getBestMove, the running maximum
    getMaxQValue and the temporal-difference update. Doubles are extended
    reals: a maximum over no moves is -infinity and can reach the table. */
module QTable {
  import opened Engine
  import opened ExtReal

  /** StateActionPair: equal exactly when state and action are. */
  type Key = (int, Move)

  /** LEARNING_RATE and DISCOUNT_FACTOR. */
  const LearningRate: real := 0.1
  const DiscountFactor: real := 0.9

  /** qValues.getOrDefault(new StateActionPair(s, m), 0.0) */
  function Q(values: map<Key, Ext>, s: int, m: Move): Ext
  {
    if (s, m) in values then values[(s, m)] else Fin(0.0)
  }

  /** The Q-values of the moves at state `s`, in the order of `moves`. */
  function QRow(values: map<Key, Ext>, s: int, moves: seq<Move>): (vals: seq<Ext>)
    ensures |vals| == |moves|
  {
    seq(|moves|, i requires 0 <= i < |moves| => Q(values, s, moves[i]))
  }

  /** What getBestMove returns: the move at the first position of maximal
      Q-value, or moves[0] when no value beats -infinity. */
  function BestMove(values: map<Key, Ext>, s: int, moves: seq<Move>): (m: Move)
    requires |moves| > 0
    ensures m in moves
  {
    var vals := QRow(values, s, moves);
    FirstArgMaxCorrect(vals);
    match FirstArgMax(vals)
    case None => moves[0]
    case Some(i) => moves[i]
  }

  /** What getMaxQValue returns: the value at the first position of maximal
      Q-value, or -infinity when no value beats it. */
  function MaxQ(values: map<Key, Ext>, s: int, moves: seq<Move>): Ext
  {
    var vals := QRow(values, s, moves);
    FirstArgMaxCorrect(vals);
    match FirstArgMax(vals)
    case None => NegInf
    case Some(i) => vals[i]
  }

  /** No table entry is NaN or -infinity. */
  ghost predicate Ordinary(values: map<Key, Ext>)
  {
    forall k :: k in values ==> values[k].Fin? || values[k].PosInf?
  }

  /** getBestMove picks the first move whose Q-value no other move exceeds;
      every earlier move has a strictly smaller value. On an ordinary table a
      move always beats the -infinity seed, so moves[0] is never a mere
      fallback. */
  lemma BestMoveIsFirstMax(values: map<Key, Ext>, s: int, moves: seq<Move>)
    requires |moves| > 0 && Ordinary(values)
    ensures exists i :: (
      && 0 <= i < |moves| && BestMove(values, s, moves) == moves[i]
      && (forall m :: m in moves ==> !Less(Q(values, s, moves[i]), Q(values, s, m)))
      && (forall j :: 0 <= j < i ==> Less(Q(values, s, moves[j]), Q(values, s, moves[i]))))
  {
    var vals := QRow(values, s, moves);
    FirstArgMaxExists(vals);
    FirstArgMaxCorrect(vals);
    var i := FirstArgMax(vals).value;
    forall m | m in moves
      ensures !Less(Q(values, s, moves[i]), Q(values, s, m))
    {
      var j :| 0 <= j < |moves| && moves[j] == m;
      assert vals[j] == Q(values, s, m);
    }
    forall j | 0 <= j < i
      ensures Less(Q(values, s, moves[j]), Q(values, s, moves[i]))
    {
      assert vals[j] == Q(values, s, moves[j]) && vals[j] != NaN;
    }
    assert BestMove(values, s, moves) == moves[i];
  }

  /** An unseen pair counts as 0.0: on an empty table the first move wins. */
  lemma BestMoveOnEmptyTable(s: int, moves: seq<Move>)
    requires |moves| > 0
    ensures BestMove(map[], s, moves) == moves[0]
  {
    var vals := QRow(map[], s, moves);
    FirstArgMaxCorrect(vals);
    assert Less(NegInf, vals[0]);
  }

  /** getMaxQValue is -infinity on no moves; otherwise, on an ordinary table,
      it is the Q-value of one of the moves and no move's value exceeds it. */
  lemma MaxQIsMaximum(values: map<Key, Ext>, s: int, moves: seq<Move>)
    ensures moves == [] ==> MaxQ(values, s, moves) == NegInf
    ensures forall m :: m in moves ==> !Less(MaxQ(values, s, moves), Q(values, s, m))
    ensures Ordinary(values) && moves != [] ==>
      exists m :: m in moves && MaxQ(values, s, moves) == Q(values, s, m)
  {
    var vals := QRow(values, s, moves);
    FirstArgMaxCorrect(vals);
    forall m | m in moves
      ensures !Less(MaxQ(values, s, moves), Q(values, s, m))
    {
      var j :| 0 <= j < |moves| && moves[j] == m;
      assert vals[j] == Q(values, s, m);
    }
    if Ordinary(values) && moves != [] {
      FirstArgMaxExists(vals);
      var i := FirstArgMax(vals).value;
      assert moves[i] in moves;
    }
  }

  /** The update `old + LEARNING_RATE * (reward + DISCOUNT_FACTOR * maxNext - old)`. */
  function TdUpdate(current: Ext, reward: real, maxNext: Ext): Ext
  {
    Add(current, Scale(LearningRate, Sub(Add(Fin(reward), Scale(DiscountFactor, maxNext)), current)))
  }

  /** On finite values the update moves the old value a tenth of the way to
      the target `reward + 0.9 * maxNext`, and never past it. */
  lemma TdUpdateFinite(c: real, reward: real, x: real)
    ensures TdUpdate(Fin(c), reward, Fin(x)) == Fin(c + 0.1 * (reward + 0.9 * x - c))
    ensures var t := reward + 0.9 * x;
            var r := TdUpdate(Fin(c), reward, Fin(x)).v;
            (c <= t ==> c <= r <= t) && (t <= c ==> t <= r <= c)
  {
  }

  /** Updated from a finite value, a maximum over no moves (-infinity) makes
      the entry -infinity; updated again from there with a finite maximum, it
      becomes NaN. */
  lemma TdUpdateEmptyMoves(c: real, reward: real, x: real)
    ensures TdUpdate(Fin(c), reward, NegInf) == NegInf
    ensures TdUpdate(NegInf, reward, Fin(x)) == NaN
  {
  }

  /** The Q-table object with its two read-only queries and its write. */
  class QTable {
    var values: map<Key, Ext>

    constructor ()
      ensures values == map[]
    {
      values := map[];
    }

    /** getBestMove: seeded with -infinity and possibleMoves[0], replaced
        on a strictly greater Q-value. */
    method GetBestMove(current: int, possibleMoves: seq<Move>) returns (bestMove: Move)
      requires |possibleMoves| > 0
      ensures bestMove == BestMove(values, current, possibleMoves)
    {
      ghost var vals := QRow(values, current, possibleMoves);
      var maxQValue := NegInf;
      bestMove := possibleMoves[0];
      ghost var pos: Option<nat> := None;
      var i := 0;
      while i < |possibleMoves|
        invariant 0 <= i <= |possibleMoves|
        invariant ArgMaxFrom(vals, i, maxQValue, pos) == FirstArgMax(vals)
        invariant pos.Some? ==> pos.value < i
        invariant bestMove == if pos.None? then possibleMoves[0] else possibleMoves[pos.value]
      {
        var move := possibleMoves[i];
        var qValue := Q(values, current, move);
        if Less(maxQValue, qValue) {
          maxQValue := qValue;
          bestMove := move;
          pos := Some(i);
        }
        i := i + 1;
      }
    }

    /** getMaxQValue over the given moves: a running maximum seeded with
        -infinity. */
    method GetMaxQValue(current: int, possibleMoves: seq<Move>) returns (maxQValue: Ext)
      ensures maxQValue == MaxQ(values, current, possibleMoves)
    {
      ghost var vals := QRow(values, current, possibleMoves);
      maxQValue := NegInf;
      ghost var pos: Option<nat> := None;
      var i := 0;
      while i < |possibleMoves|
        invariant 0 <= i <= |possibleMoves|
        invariant ArgMaxFrom(vals, i, maxQValue, pos) == FirstArgMax(vals)
        invariant pos.Some? ==> pos.value < i
        invariant maxQValue == if pos.None? then NegInf else vals[pos.value]
      {
        var qValue := Q(values, current, possibleMoves[i]);
        if Less(maxQValue, qValue) {
          maxQValue := qValue;
          pos := Some(i);
        }
        i := i + 1;
      }
    }

    /** qValues.put(pair, value) */
    method Put(s: int, m: Move, value: Ext)
      modifies this
      ensures values == old(values)[(s, m) := value]
    {
      values := values[(s, m) := value];
    }
  }

  /** A put changes the value of its own key only. */
  lemma PutOnlyOneKey(values: map<Key, Ext>, s: int, m: Move, value: Ext, t: int, n: Move)
    ensures Q(values[(s, m) := value], t, n) == if (t, n) == (s, m) then value else Q(values, t, n)
  {
  }
}
