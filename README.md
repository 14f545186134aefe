# Ms Pac-Man controllers, modelled in Dafny

This project models the controllers of the Ms Pac-Man vs Ghosts repository
`ai-mrs_pacman`. A controller is asked once per game tick for a move. The
Pac-Man controllers are:

- RandomWalk: a random move that does not turn back.
- AStar: A* towards the nearest available pill.
- Dijkstra: a best-first scan that flees from the first threatening ghost,
  else chases ghosts and pills.
- Q_RL: rules first, then Q-learning over (node, move) pairs.
- SecondCustomAI: Monte Carlo tree search over an explicit tree of nodes.
- MCTS: Monte Carlo tree search over nodes that hold fixed child arrays.

The ghost controllers work under partial observability with messages:

- MCTS_POCommGhost: a belief about Ms Pac-Man's position, then retreat,
  a random move or Monte Carlo tree search.
- QLearning_POCommGhost: the same belief, then retreat, a random move or
  Q-learning.

Modules, one per file:

- `Engine` (engine.dfy): the moves, the ghosts, exceptions and outcomes,
  and `Env`, the engine's maze queries bundled as total functions.
- `ExtReal` (extreal.dfy): Java doubles as extended reals, and the running
  maximum loop seeded with -infinity that several controllers share.
- `PacmanView` (pacman_view.dfy): the first loop over the ghosts that Q_RL
  and Dijkstra share.
- `RandomWalk`, `AStar`, `Dijkstra`, `QRl` and `QTable` (the Q-value map
  that Q_RL and QLearning_POCommGhost share), `SecondCustomAI` and
  `MctsPacman`: the Pac-Man controllers.
- `Belief` (belief.dfy): the belief fields and the Messenger.
- `GhostTree` (ghost_tree.dfy) with `MctsGhost` (ghost_mcts.dfy), and
  `QLearningGhost` (ghost_qlearning.dfy): the ghost controllers.

How the model represents things:

- Engine calls are parameters.
- A random choice is any value in the allowed range.
- A thrown exception is `Thrown(e)`. A `null` move is `NoDecision`.
- A rollout is not simulated: its score is an input.
- The MOVE order is UP, RIGHT, DOWN, LEFT, NEUTRAL. The GHOST order is
  BLINKY, PINKY, INKY, SUE. Both orders come from the engine.

## Model

| member | source | states |
|---|---|---|
| Engine.Ordinal | src/main/java/examples/StarterPacMan/RandomWalk.java:36 | every move has a position in MOVE.values() that holds it |
| Engine.GhostOrdinal | src/main/java/examples/StarterPacMan/Q_RL.java:66-76 | every ghost has a position in GHOST.values() that holds it |
| Engine.AppendDistinct | src/main/java/examples/StarterPacMan/AStar.java:98-108 | adding a node that is not yet in an ArrayList without repeats keeps it without repeats |
| Engine.Shrinks | src/main/java/examples/StarterPacMan/Dijkstra.java:50-55 | marking an unvisited node of a finite set leaves strictly fewer unvisited nodes, which is why the search loops end |
| Engine.OppositeUnique | src/main/java/examples/StarterPacMan/RandomWalk.java:42 | m.opposite() equals last exactly when m is last.opposite(), so exactly one move is filtered out |
| ExtReal.LessTransitive | src/main/java/examples/StarterPacMan/Q_RL.java:159-173 | the double comparison `>` used by the running maxima is transitive, NaN included |
| ExtReal.AtMostLessTransitive | src/main/java/examples/StarterPacMan/Q_RL.java:159-173 | `a <= b < c` gives `a < c` for doubles |
| ExtReal.Add | src/main/java/examples/StarterPacMan/Q_RL.java:132-141 | double addition: exact on finite values; NaN if either side is NaN or the sum is -inf + inf |
| ExtReal.ScaleMonotone | src/main/java/examples/StarterPacMan/Q_RL.java:132-141 | multiplying by a positive rate such as LEARNING_RATE keeps strict order |
| ExtReal.ArgMaxStep | src/main/java/examples/StarterPacMan/Q_RL.java:162-170 | one iteration of the `if (v > max)` loop keeps the loop's arg-max invariant, both when it replaces the maximum and when it keeps it |
| ExtReal.ArgMaxFromCorrect | src/main/java/examples/StarterPacMan/Q_RL.java:159-173 | the rest of the loop ends in the first position of a maximal value, or in no position exactly when nothing beats -infinity |
| ExtReal.FirstArgMaxCorrect | src/main/java/examples/StarterGhostComm/MCTS_POCommGhost.java:294-308 | the loop seeded with -infinity and `null` returns null exactly when no value beats -infinity, and otherwise the first position of a maximum |
| ExtReal.FirstArgMaxExists | src/main/java/examples/StarterGhostComm/MCTS_POCommGhost.java:294-308 | over a non-empty list of finite or +infinity values the loop always finds a child |
| ExtReal.FirstInfinityWins | src/main/java/examples/StarterGhostComm/MCTS_POCommGhost.java:319-323 | the first +infinity value after only finite ones is what the loop picks |
| ExtReal.FirstArgMaxUnique | src/main/java/examples/StarterPacMan/Q_RL.java:159-173 | the first arg-max is unique: any two positions meeting its definition are equal |
| PacmanView.ThreatInGhosts | src/main/java/examples/StarterPacMan/Q_RL.java:66-76 | a scan of GHOST.values() in order finds the same ghost as the strategy-1 decision |
| PacmanView.ThreatInCorrect | src/main/java/examples/StarterPacMan/Q_RL.java:66-76 | the scan finds nothing exactly when no ghost is a threat; otherwise it finds a threat with no threat before it |
| PacmanView.FirstThreatCorrect | src/main/java/examples/StarterPacMan/Dijkstra.java:58-73 | no ghost is fled from exactly when none is non-edible, out of the lair, visible and closer than MIN_DISTANCE; otherwise the ghost fled from is the first such in enum order |
| PacmanView.FindThreat | src/main/java/examples/StarterPacMan/Q_RL.java:66-76 | the ghost loop with its early return finds exactly the first threat |
| RandomWalk.KeptMembers | src/main/java/examples/StarterPacMan/RandomWalk.java:41-45 | a move survives the filter exactly when it is offered and is not the reverse of the last move |
| RandomWalk.KeptPrefix | src/main/java/examples/StarterPacMan/RandomWalk.java:41-45 | what is kept from a prefix of the moves is a prefix of what is kept from all of them |
| RandomWalk.KeptSnoc | src/main/java/examples/StarterPacMan/RandomWalk.java:41-45 | each loop step appends the move or skips it, as the filter says |
| RandomWalk.KeptLength | src/main/java/examples/StarterPacMan/RandomWalk.java:41-45 | with no last move nothing is dropped; otherwise exactly the one reverse move is dropped when it is offered |
| RandomWalk.KeptFromAllMoves | src/main/java/examples/StarterPacMan/RandomWalk.java:36-45 | from MOVE.values(): five moves are kept with a `null` last move, and four otherwise |
| RandomWalk.Fill | src/main/java/examples/StarterPacMan/RandomWalk.java:39-45 | the fill loop overflows the array exactly when more moves pass than it holds; otherwise slot j holds the j-th kept move |
| RandomWalk.GetRandomMove | src/main/java/examples/StarterPacMan/RandomWalk.java:35-49 | a `null` last move throws ArrayIndexOutOfBounds; otherwise the array holds exactly the four kept moves and the draw is one of them |
| RandomWalk.GetMove | src/main/java/examples/StarterPacMan/RandomWalk.java:21-32 | a `null` last move throws ArrayIndexOutOfBounds; otherwise the move returned never reverses the last move |
| AStar.AvailableMembers | src/main/java/examples/StarterPacMan/AStar.java:26-31 | a node is collected exactly when it is at an index i whose pill is reported available (Boolean true, not null) |
| AStar.CollectTargets | src/main/java/examples/StarterPacMan/AStar.java:23-39 | the two collect loops build the available pills followed by the available power pills; both use isPillStillAvailable(i) |
| AStar.ContainsTarget | src/main/java/examples/StarterPacMan/AStar.java:132-139 | containsTarget is true exactly when the node is one of the targets |
| AStar.CompareTo | src/main/java/examples/StarterPacMan/AStar.java:171-173 | Integer.compare on fScores: sign -1, 0 or 1 agreeing with `<` and `==` |
| AStar.LeastF | src/main/java/examples/StarterPacMan/AStar.java:95 | poll takes an element whose fScore no queued element undercuts |
| AStar.NodesBelow | src/main/java/examples/StarterPacMan/AStar.java:93-126 | the node indices of the maze, 0 to size-1, as a set |
| AStar.Close | src/main/java/examples/StarterPacMan/AStar.java:108 | closing a node keeps the closed list without repeats, in the maze and free of targets; fewer open nodes remain |
| AStar.Poll | src/main/java/examples/StarterPacMan/AStar.java:95 | after a poll the open set is still made of maze nodes with consistent scores, and so is the node polled |
| AStar.SuccessorsOk | src/main/java/examples/StarterPacMan/AStar.java:111-125 | successors added are maze nodes scored gScore+1 and heuristic to targets[0], and none is closed |
| AStar.SuccessorOk | src/main/java/examples/StarterPacMan/AStar.java:112-124 | the same for the successor through one move |
| AStar.OpenOkAppend | src/main/java/examples/StarterPacMan/AStar.java:111-125 | two open lists in shape concatenate to one in shape |
| AStar.AddSuccessors | src/main/java/examples/StarterPacMan/AStar.java:111-125 | the inner loop appends exactly the successors not closed when visited, in move order |
| AStar.PollStep | src/main/java/examples/StarterPacMan/AStar.java:95-105 | a poll keeps the search invariant; if the start node is a target, the first node polled is the start, unclosed |
| AStar.CloseStep | src/main/java/examples/StarterPacMan/AStar.java:108-125 | closing a non-target and adding its successors keeps the search invariant and shrinks the set of nodes never closed |
| AStar.FindNearestTarget | src/main/java/examples/StarterPacMan/AStar.java:82-130 | the search ends on a finite maze; it returns a target or the start node, and the start node itself when it is a target |
| AStar.GetMove | src/main/java/examples/StarterPacMan/AStar.java:16-56 | with targets, the move goes towards a target or the start node (the start node if it is a target); without targets, RandomWalk's behaviour, throwing on a `null` last move |
| Dijkstra.RandomValidMove | src/main/java/examples/StarterPacMan/Dijkstra.java:21-27 | remove on the fixed-size Arrays.asList throws UnsupportedOperation when the reverse move is there; otherwise any offered move, never the reverse |
| Dijkstra.RelaxOnlyLowers | src/main/java/examples/StarterPacMan/Dijkstra.java:58-106 | a relaxation keeps everything or lowers one distance and enqueues that pair; no distance rises and no other node is touched |
| Dijkstra.RelaxOne | src/main/java/examples/StarterPacMan/Dijkstra.java:92-98 | one `if (newDistance < getOrDefault(MAX))` update is the relaxation |
| Dijkstra.RelaxAllSnoc | src/main/java/examples/StarterPacMan/Dijkstra.java:92-106 | relaxing a list with one more target relaxes that target last |
| Dijkstra.RelaxAllPrefix | src/main/java/examples/StarterPacMan/Dijkstra.java:92-106 | the loop over the targets relaxes one prefix more at each step |
| Dijkstra.RelaxGhostsPrefix | src/main/java/examples/StarterPacMan/Dijkstra.java:76-86 | each ghost step relaxes the ghost's node if the ghost is edible, and does nothing otherwise |
| Dijkstra.RelaxAllWithin | src/main/java/examples/StarterPacMan/Dijkstra.java:92-106 | relaxing targets drawn from a node set keeps every queued node in that set |
| Dijkstra.RelaxEdibleGhosts | src/main/java/examples/StarterPacMan/Dijkstra.java:76-86 | the loop over edible ghosts computes the ghost relaxation |
| Dijkstra.RelaxGhostsWithin | src/main/java/examples/StarterPacMan/Dijkstra.java:76-86 | relaxing edible ghosts whose nodes are in a set keeps the queue in that set |
| Dijkstra.RelaxTargets | src/main/java/examples/StarterPacMan/Dijkstra.java:92-106 | each pill loop computes the relaxation of its targets |
| Dijkstra.RelaxNeighbours | src/main/java/examples/StarterPacMan/Dijkstra.java:76-106 | one expansion relaxes edible ghosts, then pills, then power pills; the queue stays in the node set |
| Dijkstra.LeastDistance | src/main/java/examples/StarterPacMan/Dijkstra.java:45-47 | poll takes a pair whose distance no queued pair undercuts |
| Dijkstra.PollWithin | src/main/java/examples/StarterPacMan/Dijkstra.java:45-47 | polling keeps the rest of the queue in the node set and the polled node in it |
| Dijkstra.GrowsTrans | src/main/java/examples/StarterPacMan/Dijkstra.java:76-106 | growth by relaxations from one node composes: no recorded node or queued pair is lost, every new pair is a relaxation from that node, and every changed or new distance has its own pair in the queue at exactly that distance |
| Dijkstra.RelaxGrows | src/main/java/examples/StarterPacMan/Dijkstra.java:92-98 | one relaxation grows the frontier in that sense |
| Dijkstra.RelaxAllGrows | src/main/java/examples/StarterPacMan/Dijkstra.java:92-106 | relaxing a list of targets grows the frontier in that sense |
| Dijkstra.RelaxGhostsGrows | src/main/java/examples/StarterPacMan/Dijkstra.java:76-86 | relaxing the edible ghosts grows the frontier in that sense |
| Dijkstra.RelaxAllLowers | src/main/java/examples/StarterPacMan/Dijkstra.java:92-106 | relaxing a list of targets raises no distance (a missing entry counting as Integer.MAX_VALUE) and leaves each target at most the processed distance plus the way there |
| Dijkstra.RelaxGhostsLowers | src/main/java/examples/StarterPacMan/Dijkstra.java:76-86 | relaxing the edible ghosts raises no distance and leaves each edible ghost's node at most the processed distance plus the way there |
| Dijkstra.ExpandedGrows | src/main/java/examples/StarterPacMan/Dijkstra.java:76-106 | expanding one node grows the frontier, raises no distance, and leaves every pill, power pill and edible ghost node at most the processed distance plus the way there |
| Dijkstra.PollRest | src/main/java/examples/StarterPacMan/Dijkstra.java:45-47 | after poll the queue holds exactly the pairs other than the polled one |
| Dijkstra.ExtendTrace | src/main/java/examples/StarterPacMan/Dijkstra.java:45-55 | a polled pair of least distance extends the trace: its distance is an earlier marked node's distance plus the path from it, and, when no distance is negative, at least every earlier poll distance |
| Dijkstra.ExpandTraced | src/main/java/examples/StarterPacMan/Dijkstra.java:45-106 | after an expansion every queued pair is still a relaxation from a marked node at that node's poll distance, and when no distance is negative none is below the last poll |
| Dijkstra.ExpandKeys | src/main/java/examples/StarterPacMan/Dijkstra.java:31-106 | lazy deletion loses no node: every recorded node is visited or still has a queued pair at exactly its recorded distance; once the start node is expanded, every target's recorded distance is at most its distance from the start node |
| Dijkstra.SkipPoll | src/main/java/examples/StarterPacMan/Dijkstra.java:45-52 | skipping a visited node keeps the queue traced and loses no recorded node |
| Dijkstra.Halted | src/main/java/examples/StarterPacMan/Dijkstra.java:58-73 | a scan stopped at a threatened node, with every target nearer than the last poll distance marked, leaves a complete trace of marked nodes and poll distances |
| Dijkstra.Drained | src/main/java/examples/StarterPacMan/Dijkstra.java:44-107 | a scan whose queue runs dry has marked every target the start node reaches below Integer.MAX_VALUE, and none of its marked nodes is threatened |
| Dijkstra.ExtendDerived | src/main/java/examples/StarterPacMan/Dijkstra.java:45-55 | the polled pair's distance is an earlier marked node's poll distance plus the path from that node |
| Dijkstra.ExtendOrdered | src/main/java/examples/StarterPacMan/Dijkstra.java:45-55 | when no distance is negative, the polled distance is at least every earlier poll distance |
| Dijkstra.ExpandDerived | src/main/java/examples/StarterPacMan/Dijkstra.java:76-106 | every pair queued after an expansion is a relaxation from some marked node at that node's poll distance |
| Dijkstra.ExpandOrdered | src/main/java/examples/StarterPacMan/Dijkstra.java:45-106 | when no distance is negative, no pair queued after an expansion is nearer than the polled pair |
| Dijkstra.Skipped | src/main/java/examples/StarterPacMan/Dijkstra.java:50-52 | skipping an already visited node keeps the whole loop invariant |
| Dijkstra.Stopped | src/main/java/examples/StarterPacMan/Dijkstra.java:58-73 | a threatened polled node of least distance ends the scan with a complete trace, that node last with its first threatening ghost; when no distance is negative, every target nearer to the start node than that poll distance was marked before it |
| Dijkstra.Advance | src/main/java/examples/StarterPacMan/Dijkstra.java:45-106 | expanding an unthreatened polled node keeps the search invariant, with the node added to the trace at its poll distance |
| Dijkstra.Started | src/main/java/examples/StarterPacMan/Dijkstra.java:31-42 | the loop invariant holds for the initial queue and distances map, which hold only the start node at distance 0 |
| Dijkstra.Elements | src/main/java/examples/StarterPacMan/Dijkstra.java:92-106 | the set of a list's elements |
| Dijkstra.ScanNodes | src/main/java/examples/StarterPacMan/Dijkstra.java:31-106 | every node the scan can enqueue is in one finite set: the start node, edible ghosts' nodes, pills and power pills |
| Dijkstra.NoneThreatenedAt | src/main/java/examples/StarterPacMan/Dijkstra.java:58-73 | no node of a list is threatened exactly when no position of it is |
| Dijkstra.Visit | src/main/java/examples/StarterPacMan/Dijkstra.java:55-73 | marking an unthreatened node keeps the marked nodes distinct, starting at the start node and unthreatened; fewer unmarked nodes remain |
| Dijkstra.Stop | src/main/java/examples/StarterPacMan/Dijkstra.java:58-73 | marking a threatened node ends the scan with that node and its first threat |
| Dijkstra.Finished | src/main/java/examples/StarterPacMan/Dijkstra.java:44-107 | an exhausted queue ends the scan on an unthreatened last node |
| Dijkstra.ScanPoll | src/main/java/examples/StarterPacMan/Dijkstra.java:45-52 | polling keeps the scan invariant; the first node polled is the start node, not yet visited |
| Dijkstra.Step | src/main/java/examples/StarterPacMan/Dijkstra.java:44-107 | one iteration either ends with a threat or keeps the invariant, shrinking the unvisited nodes or the queue |
| Dijkstra.Process | src/main/java/examples/StarterPacMan/Dijkstra.java:55-106 | processing a new node marks it; a threat ends the scan, otherwise the node is expanded and the invariant kept |
| Dijkstra.Scan | src/main/java/examples/StarterPacMan/Dijkstra.java:31-107 | the loop ends at the first marked node a ghost threatens, returning it and that ghost, or with an empty queue; the marked nodes are distinct, start at the start node and are nodes the scan enqueues; each later one was polled at an earlier marked node's distance plus the path from it, and when no distance is negative the poll distances never decrease and every pill, power pill and edible ghost node nearer to the start node than the last poll distance has been marked, also when the scan stops at a threat; a scan without a threat has marked every such target the start node reaches below Integer.MAX_VALUE |
| Dijkstra.GetMove | src/main/java/examples/StarterPacMan/Dijkstra.java:15-126 | a corner with moves takes the random move; otherwise the scan as in Dijkstra.Scan decides: the move away from the first threatening ghost at the last marked node, which, when no distance is negative, comes only after every nearer target was marked; else, with every reachable target marked and none threatened, the random fallback or the reverse of the last move; when every junction has more than two neighbours, as in the engine's mazes, the scan always runs; UnsupportedOperation only when the reverse move is offered |
| QRl.AlwaysExplores | src/main/java/examples/StarterPacMan/Q_RL.java:122 | with EXPLORATION_PROBABILITY = 1.0, `nextDouble() < 1.0` always holds, so the exploit branch is dead |
| QRl.NearestFromCorrect | src/main/java/examples/StarterPacMan/Q_RL.java:79-94 | the rest of the edible-ghost loop keeps the nearest edible ghost so far, first in enum order on ties, below Integer.MAX_VALUE |
| QRl.NearestEdibleCorrect | src/main/java/examples/StarterPacMan/Q_RL.java:79-94 | no ghost is chased exactly when every edible ghost is at Integer.MAX_VALUE or more; otherwise the chased ghost is edible, nearest, and first in enum order among the nearest |
| QRl.FindNearestEdible | src/main/java/examples/StarterPacMan/Q_RL.java:79-94 | the strategy-2 loop computes the nearest edible ghost |
| QRl.AvailableFromCorrect | src/main/java/examples/StarterPacMan/Q_RL.java:100-114 | the search from index i finds none exactly when no later index is available (Boolean true); otherwise the first that is |
| QRl.FindAvailable | src/main/java/examples/StarterPacMan/Q_RL.java:100-106 | the pill loop's early return picks the first available index |
| QRl.QRlPacman.constructor | src/main/java/examples/StarterPacMan/Q_RL.java:56-57 | an empty Q table and a `null` last move |
| QRl.QRlPacman.GetMove | src/main/java/examples/StarterPacMan/Q_RL.java:60-156 | strategies 1-3 in order leave the Q table and last move unchanged; strategy 4 picks an offered move, records it, and updates Q(current, lastMove) by the TD rule when lastMove is set; with no moves it reverses |
| QTable.QRow | src/main/java/examples/StarterPacMan/Q_RL.java:162-170 | one getOrDefault(0.0) value per move, in order |
| QTable.BestMove | src/main/java/examples/StarterPacMan/Q_RL.java:159-173 | getBestMove returns one of the moves offered |
| QTable.BestMoveIsFirstMax | src/main/java/examples/StarterPacMan/Q_RL.java:159-173 | over finite Q values the best move has a maximal Q value and every earlier move has a strictly smaller one |
| QTable.BestMoveOnEmptyTable | src/main/java/examples/StarterPacMan/Q_RL.java:161-170 | with an empty table every value is 0.0, so the first offered move wins |
| QTable.MaxQIsMaximum | src/main/java/examples/StarterPacMan/Q_RL.java:176-189 | getMaxQValue is -infinity on no moves; no move's Q value exceeds it; over finite values it is some move's value |
| QTable.TdUpdateFinite | src/main/java/examples/StarterPacMan/Q_RL.java:132-141 | on finite values the update is Q + 0.1 (r + 0.9 max - Q), which lies between Q and its target |
| QTable.TdUpdateEmptyMoves | src/main/java/examples/StarterPacMan/Q_RL.java:132-141 | with no next moves the maximum is -infinity and the update gives -infinity; adding to a -infinity entry later gives NaN |
| QTable.QTable.constructor | src/main/java/examples/StarterPacMan/Q_RL.java:56 | a new HashMap is empty |
| QTable.QTable.GetBestMove | src/main/java/examples/StarterPacMan/Q_RL.java:159-173 | the running-maximum loop returns the first move with a maximal Q value |
| QTable.QTable.GetMaxQValue | src/main/java/examples/StarterPacMan/Q_RL.java:176-189 | the loop returns the maximum Q value over the moves |
| QTable.QTable.Put | src/main/java/examples/StarterPacMan/Q_RL.java:139 | put overwrites one key and keeps the rest of the map |
| QTable.PutOnlyOneKey | src/main/java/examples/StarterPacMan/Q_RL.java:139 | after a put only that state-action pair reads differently |
| SecondCustomAI.FirstWithMoveCorrect | src/main/java/examples/StarterPacMan/SecondCustomAI.java:220-227 | the search over children finds none exactly when no child has the move; otherwise the first that has it |
| SecondCustomAI.LeafMissesFirst | src/main/java/examples/StarterPacMan/SecondCustomAI.java:100-110 | at a leaf the first legal move, UP, is the one expanded |
| SecondCustomAI.NoneMissingHasChildren | src/main/java/examples/StarterPacMan/SecondCustomAI.java:100-119 | when every legal move already has a child, the node has children, so getRandomChild does not throw |
| SecondCustomAI.ChildValues | src/main/java/examples/StarterPacMan/SecondCustomAI.java:66-91 | one UCT value per child, each finite or +infinity |
| SecondCustomAI.UctChild | src/main/java/examples/StarterPacMan/SecondCustomAI.java:66-79 | the selected child is a child of the node, later in the arena |
| SecondCustomAI.UctChildNoneIffLeaf | src/main/java/examples/StarterPacMan/SecondCustomAI.java:66-79 | UCTSelectChild returns null exactly when the node has no children |
| SecondCustomAI.FirstUnvisitedWins | src/main/java/examples/StarterPacMan/SecondCustomAI.java:81-91 | the first unvisited child is selected when all earlier children were visited |
| SecondCustomAI.ChildRatios | src/main/java/examples/StarterPacMan/SecondCustomAI.java:233-246 | one totalScore/visits ratio per child |
| SecondCustomAI.BestChild | src/main/java/examples/StarterPacMan/SecondCustomAI.java:233-246 | getBestChild returns a child of the node, if any |
| SecondCustomAI.VisitedChildIsBest | src/main/java/examples/StarterPacMan/SecondCustomAI.java:233-246 | a visited first child gives a finite ratio, so getBestChild is not null |
| SecondCustomAI.SelectFrom | src/main/java/examples/StarterPacMan/SecondCustomAI.java:56-63 | the select loop ends at a leaf below the start node |
| SecondCustomAI.UpdateChain | src/main/java/examples/StarterPacMan/SecondCustomAI.java:145-155 | updating up the parents keeps the tree's shape and moves |
| SecondCustomAI.MonteCarloTree.constructor | src/main/java/examples/StarterPacMan/SecondCustomAI.java:174-190 | a root alone: no parent, no children, no visits, NEUTRAL move |
| SecondCustomAI.MonteCarloTree.AddChild | src/main/java/examples/StarterPacMan/SecondCustomAI.java:216-218 | the new node is appended to the parent's list and has the parent as its own |
| SecondCustomAI.MonteCarloTree.GetChildWithMove | src/main/java/examples/StarterPacMan/SecondCustomAI.java:220-227 | the loop returns the first child with the move, or null |
| SecondCustomAI.MonteCarloTree.GetRandomChild | src/main/java/examples/StarterPacMan/SecondCustomAI.java:229-231 | nextInt(0) on no children throws IllegalArgument; otherwise some child |
| SecondCustomAI.MonteCarloTree.UctSelectChild | src/main/java/examples/StarterPacMan/SecondCustomAI.java:66-79 | the loop returns the first child of maximal UCT value |
| SecondCustomAI.MonteCarloTree.GetBestChild | src/main/java/examples/StarterPacMan/SecondCustomAI.java:233-246 | the loop returns the first child of maximal average score |
| SecondCustomAI.MonteCarloTree.Select | src/main/java/examples/StarterPacMan/SecondCustomAI.java:44-64 | select descends by UCT to the leaf SelectFrom names |
| SecondCustomAI.MonteCarloTree.Expand | src/main/java/examples/StarterPacMan/SecondCustomAI.java:93-120 | the first legal move without a child gets a new child at the node that move leads to; if none is missing the tree is unchanged and a child is returned |
| SecondCustomAI.MonteCarloTree.Backpropagate | src/main/java/examples/StarterPacMan/SecondCustomAI.java:145-155 | each node from the one given up to the root gets one more visit and the score |
| SecondCustomAI.ChainWellFormed | src/main/java/examples/StarterPacMan/SecondCustomAI.java:174-218 | a chain of single children is a well-formed tree |
| SecondCustomAI.ChainUpdate | src/main/java/examples/StarterPacMan/SecondCustomAI.java:145-155 | on a chain, backpropagation updates exactly the nodes up to the one given |
| SecondCustomAI.ChainSelect | src/main/java/examples/StarterPacMan/SecondCustomAI.java:59-61 | on a chain, select reaches the last node |
| SecondCustomAI.GrownChain | src/main/java/examples/StarterPacMan/SecondCustomAI.java:93-110 | expanding the last node of a chain gives a longer chain |
| SecondCustomAI.ChainRound | src/main/java/examples/StarterPacMan/SecondCustomAI.java:26-38 | a round grows the chain by one, node i having n-i visits, and adds the score to the root total |
| SecondCustomAI.Round | src/main/java/examples/StarterPacMan/SecondCustomAI.java:26-38 | the loop body of getMove keeps the tree a chain with those visit counts, one node longer, adding the score to the root |
| SecondCustomAI.GetBestMove | src/main/java/examples/StarterPacMan/SecondCustomAI.java:157-164 | the best child's move, or a NullPointerException when getBestChild is null |
| SecondCustomAI.GetMove | src/main/java/examples/StarterPacMan/SecondCustomAI.java:19-42 | SIMULATIONS rounds build a chain of the NEUTRAL root and 50 UP nodes whose root total is the sum of the rollout scores; the move returned is always UP |
| MctsPacman.OrdinalsExcept | src/main/java/examples/StarterPacMan/MCTS.java:90-94 | the ordinals kept are valid and never that of the skipped move |
| MctsPacman.OrdinalsExceptMembers | src/main/java/examples/StarterPacMan/MCTS.java:90-94 | a move's ordinal is kept exactly when the move is offered and is not the skipped one |
| MctsPacman.ChildIndicesValue | src/main/java/examples/StarterPacMan/MCTS.java:90-94 | the filter over MOVE.values() without NEUTRAL gives 0, 1, 2, 3 |
| MctsPacman.CtNode.constructor | src/main/java/examples/StarterPacMan/MCTS.java:85-95 | a node with its parent and move, no visits, four child indices and no children |
| MctsPacman.CtNode.SelectChild | src/main/java/examples/StarterPacMan/MCTS.java:101-104 | indexing childIndices by visitCount throws IndexOutOfBounds outside the array; otherwise a new child with the visitCount-th move |
| MctsPacman.CtNode.Expand | src/main/java/examples/StarterPacMan/MCTS.java:106-115 | a full node throws IllegalState; otherwise visitCount grows by one and a new child with that move is returned |
| MctsPacman.CtNode.Update | src/main/java/examples/StarterPacMan/MCTS.java:117-120 | one more visit, and the score added |
| MctsPacman.Select | src/main/java/examples/StarterPacMan/MCTS.java:38-48 | a full root throws IndexOutOfBounds in selectChild; otherwise it grows visitCount and returns a fresh child |
| MctsPacman.Backpropagate | src/main/java/examples/StarterPacMan/MCTS.java:68-75 | every node on the parent chain gets one more visit and the score |
| MctsPacman.MostVisited | src/main/java/examples/StarterPacMan/MCTS.java:30-32 | the stream max throws on an empty array (IllegalState) or a null entry (NullPointer); otherwise a child of most visits, the earlier on ties |
| MctsPacman.GetMove | src/main/java/examples/StarterPacMan/MCTS.java:16-35 | the first two rounds expand UP and DOWN; the third throws ArrayIndexOutOfBounds, so getMove never returns |
| Belief.Messenger.constructor | src/main/java/examples/StarterGhostComm/MCTS_POCommGhost.java:122 | the board that getMessenger returns starts with no messages |
| Belief.Messenger.AddMessage | src/main/java/examples/StarterGhostComm/MCTS_POCommGhost.java:126-128 | addMessage appends one message to the board |
| Belief.RelayAdoptsNewest | src/main/java/examples/StarterGhostComm/MCTS_POCommGhost.java:132-141 | the relay loop changes nothing if no PACMAN_SEEN message is newer than the held tick and older than now; else it adopts the first message of the largest such tick |
| Belief.LastNewest | src/main/java/examples/StarterGhostComm/MCTS_POCommGhost.java:133-140 | after a prefix with nothing relayable, the last message alone decides |
| Belief.OvertakenNewest | src/main/java/examples/StarterGhostComm/MCTS_POCommGhost.java:133-140 | a last message newer than the newest so far becomes the newest |
| Belief.KeptNewest | src/main/java/examples/StarterGhostComm/MCTS_POCommGhost.java:133-140 | a last message not newer than the newest so far leaves it the newest |
| Belief.RelayMonotone | src/main/java/examples/StarterGhostComm/MCTS_POCommGhost.java:132-141 | the relay never moves tickSeen back; anything adopted is newer than the held tick and older than now |
| Belief.RelayIgnoresStaleness | src/main/java/examples/StarterGhostComm/MCTS_POCommGhost.java:112-141 | for every belief that housekeeping resets, any relayed sighting from before the current tick is adopted regardless of its age, so a sighting at least the threshold old leaves the belief stale |
| Belief.HousekeepResets | src/main/java/examples/StarterGhostComm/MCTS_POCommGhost.java:112-117 | a stale belief becomes unknown in both fields; a fresh one is kept |
| Belief.SightingOverrides | src/main/java/examples/StarterGhostComm/MCTS_POCommGhost.java:119-129 | a direct sighting sets the belief to that node at this tick, whatever was held or relayed |
| Belief.StalenessScenario | src/main/java/examples/StarterGhostComm/MCTS_POCommGhost.java:101-117 | an example timeline beside HousekeepResets: with TICK_THRESHOLD 5, a sighting at tick 10 is still held at tick 14, and forgotten at ticks 15 and 16 |
| Belief.Tracker.constructor | src/main/java/examples/StarterGhostComm/MCTS_POCommGhost.java:93-108 | the ghost and threshold given, with no belief (-1, -1) |
| Belief.Tracker.Update | src/main/java/examples/StarterGhostComm/MCTS_POCommGhost.java:112-144 | the belief becomes Observe of the old one; a sighting is broadcast; the position used is the live one, else the believed one |
| Belief.Tracker.CloseToPower | src/main/java/examples/StarterGhostComm/QLearning_POCommGhost.java:264-282 | true exactly when some available power pill, after only known availabilities, is closer than PILL_PROXIMITY to the live or believed position |
| GhostTree.ChildValues | src/main/java/examples/StarterGhostComm/MCTS_POCommGhost.java:299-305 | one UCT value per child, each finite or +infinity |
| GhostTree.BestChild | src/main/java/examples/StarterGhostComm/MCTS_POCommGhost.java:294-308 | getBestChild returns a child of the node, if any |
| GhostTree.BestChildNoneIffLeaf | src/main/java/examples/StarterGhostComm/MCTS_POCommGhost.java:294-308 | getBestChild is null exactly when the node has no children |
| GhostTree.BestChildIsFirstMax | src/main/java/examples/StarterGhostComm/MCTS_POCommGhost.java:294-308 | the best child has a maximal UCT value, and every earlier child a strictly smaller one |
| GhostTree.FirstUnvisitedWins | src/main/java/examples/StarterGhostComm/MCTS_POCommGhost.java:319-323 | the first unvisited child wins when all earlier children were visited |
| GhostTree.ChainBelow | src/main/java/examples/StarterGhostComm/MCTS_POCommGhost.java:287-291 | every node on a node's parent chain comes no later in the arena |
| GhostTree.ChainTransitive | src/main/java/examples/StarterGhostComm/MCTS_POCommGhost.java:287-291 | an ancestor of an ancestor is an ancestor |
| GhostTree.ChainReachesRoot | src/main/java/examples/StarterGhostComm/MCTS_POCommGhost.java:287-291 | every parent chain reaches the root |
| GhostTree.SelectFrom | src/main/java/examples/StarterGhostComm/MCTS_POCommGhost.java:203-211 | select ends at a leaf below its start node |
| GhostTree.RowExact | src/main/java/examples/StarterGhostComm/MCTS_POCommGhost.java:221-241 | one ghost move's row holds exactly the pairs whose two neighbours exist |
| GhostTree.PairsExact | src/main/java/examples/StarterGhostComm/MCTS_POCommGhost.java:216-232 | expand adds exactly the (ghost move, Pac-Man move) pairs whose two neighbours exist |
| GhostTree.Range | src/main/java/examples/StarterGhostComm/MCTS_POCommGhost.java:231-232 | the indices a..b-1 in order |
| GhostTree.SearchTree.constructor | src/main/java/examples/StarterGhostComm/MCTS_POCommGhost.java:182 | the root alone, with its move and positions |
| GhostTree.SearchTree.GetBestChild | src/main/java/examples/StarterGhostComm/MCTS_POCommGhost.java:294-308 | the loop returns the first child of maximal UCT value |
| GhostTree.SearchTree.Select | src/main/java/examples/StarterGhostComm/MCTS_POCommGhost.java:203-211 | the loop descends to the leaf SelectFrom names |
| GhostTree.SearchTree.Expand | src/main/java/examples/StarterGhostComm/MCTS_POCommGhost.java:213-250 | the node gets the candidate children in order; the nodes before it stay |
| GhostTree.SearchTree.ExpandRow | src/main/java/examples/StarterGhostComm/MCTS_POCommGhost.java:221-241 | the inner loop adds one row of children |
| GhostTree.SearchTree.Backpropagate | src/main/java/examples/StarterGhostComm/MCTS_POCommGhost.java:285-292 | exactly the nodes on the parent chain get one more visit and the score |
| GhostTree.Backpropagated | src/main/java/examples/StarterGhostComm/MCTS_POCommGhost.java:285-292 | adding a visit and the score along a parent chain keeps the tree well formed |
| GhostTree.Extend | src/main/java/examples/StarterGhostComm/MCTS_POCommGhost.java:231-232 | adding n children makes the arena n nodes longer |
| GhostTree.RowSnoc | src/main/java/examples/StarterGhostComm/MCTS_POCommGhost.java:221-236 | each Pac-Man move step adds a child exactly when both neighbours exist |
| GhostTree.ExtendSnoc | src/main/java/examples/StarterGhostComm/MCTS_POCommGhost.java:231-232 | adding one more child is one addChild |
| GhostTree.AddChildWellFormed | src/main/java/examples/StarterGhostComm/MCTS_POCommGhost.java:231-232 | adding a child keeps every parent and child link consistent |
| GhostTree.AddChildGrows | src/main/java/examples/StarterGhostComm/MCTS_POCommGhost.java:231-232 | adding a child extends the record of what was added |
| GhostTree.ExtendWellFormed | src/main/java/examples/StarterGhostComm/MCTS_POCommGhost.java:213-250 | expansion keeps the tree well formed |
| GhostTree.ExtendGrows | src/main/java/examples/StarterGhostComm/MCTS_POCommGhost.java:213-250 | expansion appends the new children after the old nodes and leaves those nodes' fields alone |
| GhostTree.SameShape | src/main/java/examples/StarterGhostComm/MCTS_POCommGhost.java:285-292 | changing statistics only keeps the tree well formed |
| GhostTree.BackpropagateReachesRoot | src/main/java/examples/StarterGhostComm/MCTS_POCommGhost.java:285-292 | backpropagation updates the node itself and the root |
| MctsGhost.DecisionFromCandidates | src/main/java/examples/StarterGhostComm/MCTS_POCommGhost.java:194-199 | the decision throws NullPointer exactly when the root has no candidate; otherwise its move is one the ghost may make |
| MctsGhost.AfterExpand | src/main/java/examples/StarterGhostComm/MCTS_POCommGhost.java:187-188 | after an expand, the root's children are exactly its candidates |
| MctsGhost.ExpandRoot | src/main/java/examples/StarterGhostComm/MCTS_POCommGhost.java:188 | expanding the childless root gives it its candidates as children |
| MctsGhost.ExpandBelowRoot | src/main/java/examples/StarterGhostComm/MCTS_POCommGhost.java:188 | expanding a node below the root leaves the root's children as they were |
| MctsGhost.AfterBackpropagate | src/main/java/examples/StarterGhostComm/MCTS_POCommGhost.java:190 | backpropagation leaves the root's children as they were |
| MctsGhost.AfterRound | src/main/java/examples/StarterGhostComm/MCTS_POCommGhost.java:186-190 | a round of select, expand and backpropagate keeps the tree well formed |
| MctsGhost.AfterRounds | src/main/java/examples/StarterGhostComm/MCTS_POCommGhost.java:185-191 | any number of rounds keep the tree well formed |
| MctsGhost.RoundsSnoc | src/main/java/examples/StarterGhostComm/MCTS_POCommGhost.java:185-191 | one more rollout score is one more round on the tree so far |
| MctsGhost.RoundParts | src/main/java/examples/StarterGhostComm/MCTS_POCommGhost.java:186-190 | a round is the expansion of the selected leaf followed by backpropagation from it, and the expanded tree is well formed |
| MctsGhost.BumpRoot | src/main/java/examples/StarterGhostComm/MCTS_POCommGhost.java:285-292 | backpropagation bumps the root, and every other node is bumped or unchanged |
| MctsGhost.BumpChild | src/main/java/examples/StarterGhostComm/MCTS_POCommGhost.java:285-292 | backpropagation from a child of the root (or the root) bumps only that node and the root |
| MctsGhost.RoundRoot | src/main/java/examples/StarterGhostComm/MCTS_POCommGhost.java:186-190 | a round gives the root one more visit and the rollout score, and takes no visit from any node |
| MctsGhost.ChildRound | src/main/java/examples/StarterGhostComm/MCTS_POCommGhost.java:186-190 | a round that selects a child of the root gives it one more visit and leaves every other child of the root unchanged |
| MctsGhost.SelectsChild | src/main/java/examples/StarterGhostComm/MCTS_POCommGhost.java:203-211 | while some child of the expanded root is unvisited, select returns the first unvisited one, which is still a leaf (its UCT value is +infinity) |
| MctsGhost.StepShape | src/main/java/examples/StarterGhostComm/MCTS_POCommGhost.java:186-190 | a round keeps the root's children its candidates, gives the root one more visit and the score, and takes no visit away |
| MctsGhost.FirstStepVisits | src/main/java/examples/StarterGhostComm/MCTS_POCommGhost.java:186-190 | after the first round the root's children are all unvisited leaves |
| MctsGhost.LaterStepVisits | src/main/java/examples/StarterGhostComm/MCTS_POCommGhost.java:186-190 | each later round visits the first unvisited child of the root, if any, and keeps the others' visits |
| MctsGhost.RoundStep | src/main/java/examples/StarterGhostComm/MCTS_POCommGhost.java:186-190 | one more round moves the state from n to n + 1 rounds: root children still the candidates, n + 1 root visits, the first n children visited and the rest unvisited leaves; the root's score grows by the rollout score |
| MctsGhost.RoundsState | src/main/java/examples/StarterGhostComm/MCTS_POCommGhost.java:185-191 | n rounds on a fresh root leave the candidates as the root's children, n visits and the sum of the scores at the root, and exactly the first n - 1 children visited |
| MctsGhost.SearchOutcome | src/main/java/examples/StarterGhostComm/MCTS_POCommGhost.java:181-201 | the tree of NUM_SIMULATIONS rounds and its decision: root children the candidates, NUM_SIMULATIONS root visits and the sum of the scores, child k visited exactly when k < NUM_SIMULATIONS, NullPointer exactly without candidates, otherwise an offered move |
| MctsGhost.Round | src/main/java/examples/StarterGhostComm/MCTS_POCommGhost.java:186-190 | one loop iteration turns the tree into AfterRound of the old tree: the leaf select reaches gets its candidates as children, then every node on its parent chain one more visit and the rollout score |
| MctsGhost.RunMcts | src/main/java/examples/StarterGhostComm/MCTS_POCommGhost.java:181-201 | the tree is that of NUM_SIMULATIONS rounds on the fresh root, the i-th round with the i-th rollout score; the root has NUM_SIMULATIONS visits and the sum of the scores, its children are its candidates and child k has been visited exactly when k < NUM_SIMULATIONS; runMCTS throws NullPointer in printDebugInfo exactly when the root has no candidates, otherwise it returns the UCT-best child's move, one the ghost may make |
| MctsGhost.MctsPoCommGhost.constructor | src/main/java/examples/StarterGhostComm/MCTS_POCommGhost.java:101-108 | a controller for the ghost with no belief |
| MctsGhost.MctsPoCommGhost.GetMove | src/main/java/examples/StarterGhostComm/MCTS_POCommGhost.java:111-179 | the belief update and broadcast; no action needed gives null; no belief gives a random offered move, or IllegalArgument on none; edible retreats; otherwise the tree is the one runMCTS builds from NUM_SIMULATIONS rounds, rooted at the ghost's state with the candidate moves as the root's children, NUM_SIMULATIONS root visits and the sum of the scores, child k visited exactly when k < NUM_SIMULATIONS, and the outcome is its UCT decision: an offered move exactly when there are candidates, NullPointer when there are none |
| QLearningGhost.RewardIgnoresPills | src/main/java/examples/StarterGhostComm/QLearning_POCommGhost.java:236-250 | the reward does not depend on pills; one life fewer adds 50 to it |
| QLearningGhost.QLearningPoCommGhost.constructor | src/main/java/examples/StarterGhostComm/QLearning_POCommGhost.java:50-80 | an empty Q table, no last move, currentReward {0.0}, no belief |
| QLearningGhost.QLearningPoCommGhost.CalculateReward | src/main/java/examples/StarterGhostComm/QLearning_POCommGhost.java:236-250 | returns the reward, and appends it to currentReward |
| QLearningGhost.QLearningPoCommGhost.GetMove | src/main/java/examples/StarterGhostComm/QLearning_POCommGhost.java:96-197 | the belief update and broadcast; no moves or no action gives null; no belief gives a random move; retreat follows approxAway; explore logs one reward; exploit records the best move and updates Q(ghost, lastMove) by the TD rule |

## Left out

- Engine internals: the maze, shortest paths, neighbours, move lookups and
  the game's clock are parameters of type `Env` and plain inputs. They are
  not part of this model.
- Floating point: doubles are modelled as reals extended with the two
  infinities and NaN. There is no rounding. The UCT formulas with sqrt and
  log are parameters (`uct`) of the selection code.
- Randomness: nextInt draws any allowed value; nextDouble/nextFloat is a
  `draw` parameter in [0, 1).
- Rollouts: `simulate` in SecondCustomAI, MCTS and MCTS_POCommGhost copies
  and advances the game. It is not modelled; each round's score is an
  input. In SecondCustomAI the node a move leads to is an input too
  (`landing`).
- 32-bit integers: int overflow in the scores and the Integer.MIN_VALUE /
  MAX_VALUE rollout sentinels are not modelled. `IntMax` stands only for
  the getOrDefault sentinel in Dijkstra and Q_RL's distance seed.
- Console output (`System.out`) is left out. The exception it raises in
  printDebugInfo is modelled.
- Concurrency and timeDue are not modelled.
- The Messenger's delivery policy is the engine's: getMessages returns the
  whole log in order.
- PriorityQueue tie order and HashMap iteration order are not fixed. The
  model lets poll return any element of least priority.
- AStar.FindNearestTarget: termination needs a finite maze whose
  successors stay in it (`ClosedMaze`), which the engine guarantees. The
  model proves a target or the start node is returned, not that it is the
  nearest.
- AStar.GetMove: copying the targets from the ArrayList to an array is
  not modelled separately; the array is the list.
- QTable.QTable.GetBestMove: requires a non-empty move array. Java throws
  on an empty one, and neither caller passes one.
- MctsPacman.GetMove: the final stream max over `children` is unreachable
  because the third round throws first. MctsPacman.MostVisited models it
  on its own.
- The currentNodeIndex argument of MCTS's Node constructor is unused.
- Dijkstra.GetMove and QRl.QRlPacman.GetMove take Pac-Man's last move as a
  plain move, not a possibly-`null` one: both call `opposite()` on
  getPacmanLastMoveMade(), so a `null` there would be a
  NullPointerException, which the model does not represent. RandomWalk
  and AStar only compare the last move, and their `null` case is modelled.
- QLearning_Ghost.java and MCTS_Ghost.java only build the four ghost
  controllers; they are not part of this model. Their TICK_THRESHOLD is 50
  against the controllers' default 5.
- Main.java (game setup and the main loop) is not part of this model.
- Printing the Q-learning move information is left out. The reward it
  computes on the explore branch is modelled, because it extends
  currentReward.
