/** QLearning_POCommGhost: the same belief update as the MCTS ghost, a
    retreat when edible or when Ms Pac-Man is near a power pill, and
    otherwise an epsilon-greedy choice over a Q-table with a
    temporal-difference update of the previous pair. `draw` is the value
    rnd.nextFloat() returned; the random move is any offered move. */
module QLearningGhost {
  import opened Engine
  import opened ExtReal
  import opened Belief
  import opened QTable

  /** EXPLORATION_PROBABILITY */
  const ExplorationProbability: real := 0.1

  /** The game counters calculateReward reads. */
  datatype GameStats = GameStats(livesRemaining: int, levelTime: int, pills: int,
                                 activePills: int, ghostsEaten: int, level: int)

  /** calculateReward's value: EAT_PACMAN_REWARD per life taken, DECAY_REWARD
      per tick, PACMAN_EATING_PILLS_PENALTY per eaten pill, GHOST_EATEN_PENALTY
      per ghost eaten and LEVEL_UP_PENALTY per level. */
  function Reward(g: GameStats): real
  {
    (3 - g.livesRemaining) as real * 50.0 + g.levelTime as real * 0.05 +
      (g.pills - g.activePills) as real * 0.0 + g.ghostsEaten as real * (-15.0) +
      g.level as real * (-100.0)
  }

  /** The eaten pills have no weight (PACMAN_EATING_PILLS_PENALTY is 0), and
      each life Ms Pac-Man loses raises the reward by 50. */
  lemma RewardIgnoresPills(g: GameStats, pills: int, activePills: int)
    ensures Reward(g.(pills := pills, activePills := activePills)) == Reward(g)
    ensures Reward(g.(livesRemaining := g.livesRemaining - 1)) == Reward(g) + 50.0
  {
  }

  /** The two ways getMove can go on a tick where the Q-learning branch is
      taken: explore (`draw < EXPLORATION_PROBABILITY`) or exploit (the best
      move by Q-value). */
  predicate Explores(draw: real)
  {
    draw < ExplorationProbability
  }

  class QLearningPoCommGhost {
    const tracker: Tracker
    const qValues: QTable
    var lastMove: Option<Move>
    /** current_reward */
    var currentReward: seq<real>

    constructor (me: GhostId, tickThreshold: int)
      ensures fresh(tracker) && fresh(qValues)
      ensures tracker.me == me && tracker.tickThreshold == tickThreshold
      ensures tracker.State() == Unknown && qValues.values == map[]
      ensures lastMove == None && currentReward == [0.0]
    {
      tracker := new Tracker(me, tickThreshold);
      qValues := new QTable();
      lastMove := None;
      currentReward := [0.0];
    }

    /** calculateReward: appends the reward to current_reward and returns
        its last element. */
    method CalculateReward(g: GameStats) returns (reward: real)
      modifies this`currentReward
      ensures currentReward == old(currentReward) + [Reward(g)]
      ensures reward == Reward(g)
    {
      currentReward := currentReward + [Reward(g)];
      reward := currentReward[|currentReward| - 1];
    }

    /** getMove. `pacmanLive` is getPacmanCurrentNodeIndex(), `ghostPos` and
        `ghostLastMove` the ghost's node and last move, `powerPills` and
        `powerAvailable` the power-pill indices and isPowerPillStillAvailable. */
    method GetMove(env: Env, now: int, pacmanLive: int, ghostPos: int, ghostLastMove: Move,
                   requiresAction: Option<bool>, edibleTime: int, messenger: Messenger?,
                   powerPills: seq<int>, powerAvailable: int -> Option<bool>,
                   stats: GameStats, draw: real)
      returns (outcome: Outcome)
      modifies this, tracker, qValues, messenger
      ensures tracker.State() == Observe(old(tracker.State()), now, tracker.tickThreshold, pacmanLive,
                                         if messenger == null then None else Some(old(messenger.log)))
      ensures messenger != null ==>
        messenger.log == old(messenger.log) +
          (if pacmanLive != -1 then [Message(tracker.me, PacmanSeen, pacmanLive, now)] else [])
      ensures var moves := env.possibleMoves(ghostPos, Some(ghostLastMove));
        var pacman := tracker.lastPacmanIndex;
        var retreat := edibleTime > 0 ||
          NearAvailablePill(powerPills, powerAvailable,
                            if pacmanLive == -1 then pacman else pacmanLive, env.distance);
        if moves == [] || requiresAction != Some(true) then
          outcome == NoDecision && Unchanged(old(qValues.values), old(lastMove), old(currentReward))
        else if pacman == -1 then
          outcome.Returned? && outcome.move in moves &&
          Unchanged(old(qValues.values), old(lastMove), old(currentReward))
        else if retreat then
          outcome == (match env.approxAway(ghostPos, pacmanLive, ghostLastMove)
                      case None => NoDecision
                      case Some(m) => Returned(m)) &&
          Unchanged(old(qValues.values), old(lastMove), old(currentReward))
        else if Explores(draw) then
          outcome.Returned? && outcome.move in moves &&
          Unchanged(old(qValues.values), old(lastMove), old(currentReward) + [Reward(stats)])
        else
          outcome == Returned(BestMove(old(qValues.values), ghostPos, moves)) &&
          lastMove == Some(outcome.move) &&
          match old(lastMove)
          case None =>
            qValues.values == old(qValues.values) && currentReward == old(currentReward)
          case Some(l) =>
            && currentReward == old(currentReward) + [Reward(stats)]
            && qValues.values == old(qValues.values)[(ghostPos, l) :=
                 TdUpdate(Q(old(qValues.values), ghostPos, l), Reward(stats),
                          MaxQ(old(qValues.values), ghostPos, env.possibleMoves(ghostPos, Some(l))))]
    {
      var pacmanIndex := tracker.Update(now, pacmanLive, messenger);
      var currentIndex := ghostPos;
      var possibleMoves := env.possibleMoves(currentIndex, Some(ghostLastMove));
      if |possibleMoves| > 0 {
        if requiresAction == Some(true) {
          if pacmanIndex != -1 {
            var close := false;
            if !(edibleTime > 0) {
              close := tracker.CloseToPower(powerPills, powerAvailable, pacmanLive, env.distance);
            }
            if edibleTime > 0 || close {
              var away := env.approxAway(currentIndex, pacmanLive, ghostLastMove);
              if away.Some? {
                return Returned(away.value);
              }
              // ArrayIndexOutOfBoundsException caught: fall through to `null`
            } else {
              var selectedMove;
              if draw < ExplorationProbability {
                assert possibleMoves[0] in possibleMoves;
                selectedMove :| selectedMove in possibleMoves;
                // printMoveInfo("Exploring", ...) calls calculateReward
                var _ := CalculateReward(stats);
                return Returned(selectedMove);
              } else {
                selectedMove := qValues.GetBestMove(currentIndex, possibleMoves);
              }
              if lastMove.Some? {
                var reward := CalculateReward(stats);
                var currentQValue := Q(qValues.values, currentIndex, lastMove.value);
                var maxNextQValue := qValues.GetMaxQValue(currentIndex, env.possibleMoves(currentIndex, lastMove));
                var updatedQValue := TdUpdate(currentQValue, reward, maxNextQValue);
                qValues.Put(currentIndex, lastMove.value, updatedQValue);
              }
              lastMove := Some(selectedMove);
              return Returned(selectedMove);
            }
          } else {
            assert possibleMoves[0] in possibleMoves;
            var m :| m in possibleMoves;
            return Returned(m);
          }
        }
      }
      return NoDecision;
    }

    /** The learner's own state is as it was, except the reward trace. */
    ghost predicate Unchanged(values: map<Key, Ext>, last: Option<Move>, trace: seq<real>)
      reads this, qValues
    {
      qValues.values == values && lastMove == last && currentReward == trace
    }
  }
}
