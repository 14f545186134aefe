/** Q_RL: the Pac-Man controller that tries a fixed chain of strategies
    (flee a close ghost, hunt the nearest edible ghost, head for the first
    available pill, then for the first power pill) and only then chooses by
    epsilon-greedy Q-learning over the offered moves. `draw` is the value
    random.nextDouble() returned; the random move is any offered move. */
module QRl {
  import opened Engine
  import opened ExtReal
  import opened QTable
  import opened PacmanView

  /** EXPLORATION_PROBABILITY */
  const ExplorationProbability: real := 1.0

  /** calculateReward: no immediate reward, on every tick. */
  const Reward: real := 0.0

  predicate Explores(draw: real)
  {
    draw < ExplorationProbability
  }

  /** nextDouble() lies in [0, 1), so with an exploration probability of 1
      every Q-learning tick explores and the exploit branch is dead. */
  lemma AlwaysExplores(draw: real)
    requires 0.0 <= draw < 1.0
    ensures Explores(draw)
  {
  }

  /** The hunting loop over Ghosts[i..]: the running minimum distance and
      ghost, replaced on an edible ghost strictly closer than the minimum so
      far. */
  function NearestFrom(env: Env, view: GhostView, from: int, i: nat,
                       minDistance: int, minGhost: Option<GhostId>): (int, Option<GhostId>)
    decreases |Ghosts| - i
  {
    if i >= |Ghosts| then (minDistance, minGhost)
    else
      var g := Ghosts[i];
      if view.edibleTime(g) > 0 && Dist(env, view, from, g) < minDistance
      then NearestFrom(env, view, from, i + 1, Dist(env, view, from, g), Some(g))
      else NearestFrom(env, view, from, i + 1, minDistance, minGhost)
  }

  /** The ghost strategy 2 hunts, seeded with Integer.MAX_VALUE and null. */
  function NearestEdible(env: Env, view: GhostView, from: int): Option<GhostId>
  {
    NearestFrom(env, view, from, 0, IntMax, None).1
  }

  /** What the running minimum means after the ghosts Ghosts[..i]: no ghost
      yet and every edible one at least Integer.MAX_VALUE away, or an edible
      ghost among them at the least distance, strictly closer than every
      edible ghost before it. */
  ghost predicate NearestAmong(env: Env, view: GhostView, from: int, i: nat,
                               minDistance: int, minGhost: Option<GhostId>)
    requires i <= |Ghosts|
  {
    && (minGhost.None? ==>
          && minDistance == IntMax
          && forall j :: 0 <= j < i && view.edibleTime(Ghosts[j]) > 0 ==>
               Dist(env, view, from, Ghosts[j]) >= IntMax)
    && (minGhost.Some? ==>
          var g := minGhost.value;
          && GhostOrdinal(g) < i && view.edibleTime(g) > 0
          && minDistance == Dist(env, view, from, g) < IntMax
          && (forall j :: 0 <= j < i && view.edibleTime(Ghosts[j]) > 0 ==>
                minDistance <= Dist(env, view, from, Ghosts[j]))
          && (forall j :: 0 <= j < GhostOrdinal(g) && view.edibleTime(Ghosts[j]) > 0 ==>
                minDistance < Dist(env, view, from, Ghosts[j])))
  }

  lemma {:induction false} NearestFromCorrect(env: Env, view: GhostView, from: int, i: nat,
                                              minDistance: int, minGhost: Option<GhostId>)
    requires i <= |Ghosts| && NearestAmong(env, view, from, i, minDistance, minGhost)
    ensures var r := NearestFrom(env, view, from, i, minDistance, minGhost);
            NearestAmong(env, view, from, |Ghosts|, r.0, r.1)
    decreases |Ghosts| - i
  {
    if i < |Ghosts| {
      var g := Ghosts[i];
      if view.edibleTime(g) > 0 && Dist(env, view, from, g) < minDistance {
        assert NearestAmong(env, view, from, i + 1, Dist(env, view, from, g), Some(g));
        NearestFromCorrect(env, view, from, i + 1, Dist(env, view, from, g), Some(g));
      } else {
        assert NearestAmong(env, view, from, i + 1, minDistance, minGhost);
        NearestFromCorrect(env, view, from, i + 1, minDistance, minGhost);
      }
    }
  }

  /** Strategy 2 hunts only when some edible ghost is closer than
      Integer.MAX_VALUE; the ghost hunted is edible, no edible ghost is
      closer, and it is the first in enum order at that distance. */
  lemma NearestEdibleCorrect(env: Env, view: GhostView, from: int)
    ensures NearestEdible(env, view, from).None? <==>
      forall g :: view.edibleTime(g) > 0 ==> Dist(env, view, from, g) >= IntMax
    ensures NearestEdible(env, view, from).Some? ==>
      var g := NearestEdible(env, view, from).value;
      && view.edibleTime(g) > 0 && Dist(env, view, from, g) < IntMax
      && (forall h :: view.edibleTime(h) > 0 ==> Dist(env, view, from, g) <= Dist(env, view, from, h))
      && (forall h :: view.edibleTime(h) > 0 && GhostOrdinal(h) < GhostOrdinal(g) ==>
            Dist(env, view, from, g) < Dist(env, view, from, h))
  {
    NearestFromCorrect(env, view, from, 0, IntMax, None);
    var r := NearestFrom(env, view, from, 0, IntMax, None);
    if r.1.None? {
      forall g | view.edibleTime(g) > 0
        ensures Dist(env, view, from, g) >= IntMax
      {
        assert Ghosts[GhostOrdinal(g)] == g;
      }
    } else {
      forall h | view.edibleTime(h) > 0
        ensures r.0 <= Dist(env, view, from, h)
        ensures GhostOrdinal(h) < GhostOrdinal(r.1.value) ==> r.0 < Dist(env, view, from, h)
      {
        assert Ghosts[GhostOrdinal(h)] == h;
      }
      assert exists h :: view.edibleTime(h) > 0 && Dist(env, view, from, h) < IntMax by {
        assert view.edibleTime(r.1.value) > 0;
      }
    }
  }

  /** Strategy 2's loop over GHOST.values(). */
  method FindNearestEdible(env: Env, view: GhostView, from: int) returns (minGhost: Option<GhostId>)
    ensures minGhost == NearestEdible(env, view, from)
  {
    var minDistance := IntMax;
    minGhost := None;
    for i := 0 to |Ghosts|
      invariant NearestFrom(env, view, from, i, minDistance, minGhost) ==
                NearestFrom(env, view, from, 0, IntMax, None)
    {
      var g := Ghosts[i];
      if view.edibleTime(g) > 0 {
        var distance := env.distance(from, view.location(g));
        if distance < minDistance {
          minDistance := distance;
          minGhost := Some(g);
        }
      }
    }
  }

  /** The first index in i .. n-1 whose isPillStillAvailable is TRUE (a null
      Boolean counts as not available). */
  function AvailableFrom(available: int -> Option<bool>, n: nat, i: nat): Option<nat>
    decreases n - i
  {
    if i >= n then None
    else if available(i) == Some(true) then Some(i)
    else AvailableFrom(available, n, i + 1)
  }

  function FirstAvailable(available: int -> Option<bool>, n: nat): Option<nat>
  {
    AvailableFrom(available, n, 0)
  }

  /** The index found is the least one in range whose flag is TRUE, and
      there is none exactly when no flag in range is. */
  lemma {:induction false} AvailableFromCorrect(available: int -> Option<bool>, n: nat, i: nat)
    requires i <= n
    ensures AvailableFrom(available, n, i).None? <==>
      forall j :: i <= j < n ==> available(j) != Some(true)
    ensures AvailableFrom(available, n, i).Some? ==>
      var k := AvailableFrom(available, n, i).value;
      && i <= k < n && available(k) == Some(true)
      && forall j :: i <= j < k ==> available(j) != Some(true)
    decreases n - i
  {
    if i < n {
      AvailableFromCorrect(available, n, i + 1);
    }
  }

  /** The pill loops of strategy 3: the first index whose flag is TRUE. */
  method FindAvailable(available: int -> Option<bool>, n: nat) returns (found: Option<nat>)
    ensures found == FirstAvailable(available, n)
  {
    for i := 0 to n
      invariant AvailableFrom(available, n, i) == FirstAvailable(available, n)
    {
      var pillStillAvailable := available(i);
      if pillStillAvailable.Some? && pillStillAvailable.value {
        return Some(i);
      }
    }
    return None;
  }

  class QRlPacman {
    const qValues: QTable
    var lastMove: Option<Move>

    constructor ()
      ensures fresh(qValues) && qValues.values == map[] && lastMove == None
    {
      qValues := new QTable();
      lastMove := None;
    }

    /** getMove. `view` holds the ghost queries, `pills` and `powerPills`
        getPillIndices and getPowerPillIndices, `pillAvailable`
        isPillStillAvailable (by position in the pill array), which both pill
        loops consult: the power-pill loop does not look at power-pill
        availability. The first four strategies leave the Q-table and
        lastMove as they were; the Q-learning branch draws from
        getPossibleMoves(current, lastMove), updates the pair (current,
        previous move) when there is a previous move, and remembers the move
        chosen. */
    method GetMove(env: Env, view: GhostView, current: int, pills: seq<int>, powerPills: seq<int>,
                   pillAvailable: int -> Option<bool>, pacmanLastMove: Move, draw: real)
      returns (move: Move)
      modifies this, qValues
      ensures match FirstThreat(env, view, current)
        case Some(g) =>
          move == env.nextAway(current, view.location(g)) && Unchanged(old(qValues.values), old(lastMove))
        case None =>
          match NearestEdible(env, view, current)
          case Some(g) =>
            move == env.nextTowards(current, view.location(g)) && Unchanged(old(qValues.values), old(lastMove))
          case None =>
            match FirstAvailable(pillAvailable, |pills|)
            case Some(i) =>
              i < |pills| && move == env.nextTowards(current, pills[i]) &&
              Unchanged(old(qValues.values), old(lastMove))
            case None =>
              match FirstAvailable(pillAvailable, |powerPills|)
              case Some(i) =>
                i < |powerPills| && move == env.nextTowards(current, powerPills[i]) &&
                Unchanged(old(qValues.values), old(lastMove))
              case None =>
                var moves := env.possibleMoves(current, old(lastMove));
                if moves == [] then
                  move == env.opposite(pacmanLastMove) && Unchanged(old(qValues.values), old(lastMove))
                else
                  && move in moves
                  && (!Explores(draw) ==> move == BestMove(old(qValues.values), current, moves))
                  && lastMove == Some(move)
                  && qValues.values == match old(lastMove)
                     case None => old(qValues.values)
                     case Some(l) =>
                       old(qValues.values)[(current, l) :=
                         TdUpdate(Q(old(qValues.values), current, l), Reward,
                                  MaxQ(old(qValues.values), current, moves))]
    {
      // Strategy 1
      var threat := FindThreat(env, view, current);
      if threat.Some? {
        return env.nextAway(current, view.location(threat.value));
      }
      // Strategy 2
      var minGhost := FindNearestEdible(env, view, current);
      if minGhost.Some? {
        return env.nextTowards(current, view.location(minGhost.value));
      }
      // Strategy 3
      var pill := FindAvailable(pillAvailable, |pills|);
      AvailableFromCorrect(pillAvailable, |pills|, 0);
      if pill.Some? {
        return env.nextTowards(current, pills[pill.value]);
      }
      var powerPill := FindAvailable(pillAvailable, |powerPills|);
      AvailableFromCorrect(pillAvailable, |powerPills|, 0);
      if powerPill.Some? {
        return env.nextTowards(current, powerPills[powerPill.value]);
      }
      // Strategy 4
      var possibleMoves := env.possibleMoves(current, lastMove);
      if |possibleMoves| > 0 {
        var selectedMove;
        if draw < ExplorationProbability {
          assert possibleMoves[0] in possibleMoves;
          selectedMove :| selectedMove in possibleMoves;
        } else {
          selectedMove := qValues.GetBestMove(current, possibleMoves);
        }
        if lastMove.Some? {
          var reward := Reward;
          var currentQValue := Q(qValues.values, current, lastMove.value);
          var maxNextQValue := qValues.GetMaxQValue(current, env.possibleMoves(current, lastMove));
          var updatedQValue := TdUpdate(currentQValue, reward, maxNextQValue);
          qValues.Put(current, lastMove.value, updatedQValue);
        }
        lastMove := Some(selectedMove);
        return selectedMove;
      }
      return env.opposite(pacmanLastMove);
    }

    /** The learner's state is as it was. */
    ghost predicate Unchanged(values: map<Key, Ext>, last: Option<Move>)
      reads this, qValues
    {
      qValues.values == values && lastMove == last
    }
  }
}
