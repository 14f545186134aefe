/** Dijkstra: a corner shortcut, then a best-first scan from Pac-Man's node
    over the ghosts and pills with lazy deletion (a visited set, and a
    distances map whose entries only fall), which flees at the first node
    it processes that a ghost threatens; when the queue runs dry, a random
    offered move. The PriorityQueue orders pairs by distance: `poll`
    returns a pair of least distance, and which one among equals is left
    open. */
module Dijkstra {
  import opened Engine
  import opened PacmanView

  /** isInCorner */
  predicate IsInCorner(env: Env, n: int)
  {
    env.isJunction(n) && |env.neighbouringNodes(n)| == 2
  }

  /** What `Arrays.asList(moves)`, `remove(lastMoveMade.opposite())` and a
      random `get` give: the list is fixed-size, so the removal throws
      UnsupportedOperationException when the reverse move is offered and
      changes nothing when it is not. */
  ghost predicate RandomValid(env: Env, moves: seq<Move>, lastMoveMade: Move, outcome: Outcome)
  {
    if env.opposite(lastMoveMade) in moves then outcome == Thrown(UnsupportedOperation)
    else outcome.Returned? && outcome.move in moves
  }

  /** The random-move block, used by the corner shortcut and the fallback. */
  method RandomValidMove(env: Env, moves: seq<Move>, lastMoveMade: Move) returns (outcome: Outcome)
    requires |moves| > 0
    ensures RandomValid(env, moves, lastMoveMade, outcome)
    ensures outcome.Returned? ==> outcome.move != env.opposite(lastMoveMade)
  {
    var validMoves := moves;
    if env.opposite(lastMoveMade) in validMoves {
      return Thrown(UnsupportedOperation);
    }
    assert validMoves[0] in validMoves;
    var m :| m in validMoves;
    return Returned(m);
  }

  /** distances.getOrDefault(n, Integer.MAX_VALUE) */
  function Get(distances: map<int, int>, n: int): int
  {
    if n in distances then distances[n] else IntMax
  }

  /** The distances map and the priority queue of (node, distance) pairs. */
  datatype Frontier = Frontier(distances: map<int, int>, queue: seq<(int, int)>)

  /** One relaxation: a strictly shorter candidate is recorded and enqueued. */
  function Relax(f: Frontier, target: int, candidate: int): Frontier
  {
    if Get(f.distances, target) > candidate
    then Frontier(f.distances[target := candidate], f.queue + [(target, candidate)])
    else f
  }

  /** A relaxation changes nothing, or overwrites the target's entry with a
      strictly smaller value and enqueues exactly that pair; no entry ever
      grows and no other entry changes. */
  lemma RelaxOnlyLowers(f: Frontier, target: int, candidate: int)
    ensures var r := Relax(f, target, candidate);
      || r == f
      || (&& candidate < Get(f.distances, target)
          && r.distances == f.distances[target := candidate]
          && r.queue == f.queue + [(target, candidate)])
    ensures forall n :: Get(Relax(f, target, candidate).distances, n) <= Get(f.distances, n)
    ensures forall n :: n != target ==>
      (n in Relax(f, target, candidate).distances <==> n in f.distances) &&
      Get(Relax(f, target, candidate).distances, n) == Get(f.distances, n)
  {
  }

  /** `if (newDistance < distances.getOrDefault(target, MAX_VALUE))`:
      record the distance and enqueue the pair. */
  method RelaxOne(f: Frontier, target: int, candidate: int) returns (r: Frontier)
    ensures r == Relax(f, target, candidate)
  {
    r := f;
    if Get(f.distances, target) > candidate {
      r := Frontier(f.distances[target := candidate], f.queue + [(target, candidate)]);
    }
  }

  /** The relaxations of one processed node, at distance `distance`, towards
      each of `targets` in order. */
  function RelaxAll(f: Frontier, env: Env, node: int, distance: int, targets: seq<int>): Frontier
  {
    if targets == [] then f
    else
      var t := targets[|targets| - 1];
      Relax(RelaxAll(f, env, node, distance, targets[..|targets| - 1]), t, distance + env.distance(node, t))
  }

  lemma RelaxAllSnoc(f: Frontier, env: Env, node: int, distance: int, targets: seq<int>, t: int)
    ensures RelaxAll(f, env, node, distance, targets + [t]) ==
            Relax(RelaxAll(f, env, node, distance, targets), t, distance + env.distance(node, t))
  {
    assert (targets + [t])[..|targets|] == targets;
  }

  lemma RelaxAllPrefix(f: Frontier, env: Env, node: int, distance: int, targets: seq<int>, i: nat)
    requires i < |targets|
    ensures RelaxAll(f, env, node, distance, targets[..i + 1]) ==
            Relax(RelaxAll(f, env, node, distance, targets[..i]), targets[i], distance + env.distance(node, targets[i]))
  {
    assert targets[..i + 1][..i] == targets[..i];
  }

  /** The relaxations of one processed node towards the edible ghosts of
      `gs`, in order. */
  function RelaxGhosts(f: Frontier, env: Env, view: GhostView, node: int, distance: int,
                       gs: seq<GhostId>): Frontier
  {
    if gs == [] then f
    else
      var before := RelaxGhosts(f, env, view, node, distance, gs[..|gs| - 1]);
      var g := gs[|gs| - 1];
      if view.edibleTime(g) > 0
      then Relax(before, view.location(g), distance + env.distance(node, view.location(g)))
      else before
  }

  lemma RelaxGhostsPrefix(f: Frontier, env: Env, view: GhostView, node: int, distance: int,
                          gs: seq<GhostId>, i: nat)
    requires i < |gs|
    ensures var before := RelaxGhosts(f, env, view, node, distance, gs[..i]);
      RelaxGhosts(f, env, view, node, distance, gs[..i + 1]) ==
        if view.edibleTime(gs[i]) > 0
        then Relax(before, view.location(gs[i]), distance + env.distance(node, view.location(gs[i])))
        else before
  {
    assert gs[..i + 1][..i] == gs[..i];
  }

  /** Everything in the queue is one of the nodes `nodes`. */
  ghost predicate QueueIn(queue: seq<(int, int)>, nodes: set<int>)
  {
    forall e :: e in queue ==> e.0 in nodes
  }

  /** Relaxing towards nodes of `nodes` enqueues only nodes of `nodes`, and
      no relaxation shrinks the queue. */
  lemma {:induction false} RelaxAllWithin(f: Frontier, env: Env, node: int, distance: int,
                                          targets: seq<int>, nodes: set<int>)
    requires QueueIn(f.queue, nodes) && forall t :: t in targets ==> t in nodes
    ensures QueueIn(RelaxAll(f, env, node, distance, targets).queue, nodes)
  {
    if targets != [] {
      var init := targets[..|targets| - 1];
      assert forall t :: t in init ==> t in targets;
      RelaxAllWithin(f, env, node, distance, init, nodes);
      assert targets[|targets| - 1] in targets;
    }
  }

  /** Strategy 2 of the scan: relax towards every edible ghost of `ghosts`,
      GHOST.values() at the call. */
  method RelaxEdibleGhosts(env: Env, view: GhostView, node: int, distance: int,
                           ghosts: seq<GhostId>, f: Frontier)
    returns (r: Frontier)
    ensures r == RelaxGhosts(f, env, view, node, distance, ghosts)
  {
    r := f;
    for i := 0 to |ghosts|
      invariant r == RelaxGhosts(f, env, view, node, distance, ghosts[..i])
    {
      var g := ghosts[i];
      RelaxGhostsPrefix(f, env, view, node, distance, ghosts, i);
      if view.edibleTime(g) > 0 {
        var ghostLocation := view.location(g);
        var ghostDistance := env.distance(node, ghostLocation);
        r := RelaxOne(r, ghostLocation, distance + ghostDistance);
      }
    }
    assert ghosts[..|ghosts|] == ghosts;
  }

  /** Relaxing towards the edible ghosts of `gs`, whose nodes are in
      `nodes`, enqueues only nodes of `nodes`. */
  lemma {:induction false} RelaxGhostsWithin(f: Frontier, env: Env, view: GhostView, node: int, distance: int,
                                             gs: seq<GhostId>, nodes: set<int>)
    requires QueueIn(f.queue, nodes)
    requires forall g :: g in gs && view.edibleTime(g) > 0 ==> view.location(g) in nodes
    ensures QueueIn(RelaxGhosts(f, env, view, node, distance, gs).queue, nodes)
  {
    if gs != [] {
      var init := gs[..|gs| - 1];
      assert forall g :: g in init ==> g in gs;
      RelaxGhostsWithin(f, env, view, node, distance, init, nodes);
      assert gs[|gs| - 1] in gs;
    }
  }

  /** Strategy 3 of the scan: relax towards every pill (and, called again,
      every power pill). */
  method RelaxTargets(env: Env, node: int, distance: int, targets: seq<int>, f: Frontier)
    returns (r: Frontier)
    ensures r == RelaxAll(f, env, node, distance, targets)
  {
    r := f;
    for i := 0 to |targets|
      invariant r == RelaxAll(f, env, node, distance, targets[..i])
    {
      var pill := targets[i];
      var pillDistance := env.distance(node, pill);
      RelaxAllPrefix(f, env, node, distance, targets, i);
      r := RelaxOne(r, pill, distance + pillDistance);
    }
    assert targets[..|targets|] == targets;
  }

  function Expanded(f: Frontier, env: Env, view: GhostView, node: int, distance: int,
                    pills: seq<int>, powerPills: seq<int>): Frontier
  {
    RelaxAll(RelaxAll(RelaxGhosts(f, env, view, node, distance, Ghosts),
                      env, node, distance, pills),
             env, node, distance, powerPills)
  }

  /** Strategies 2 and 3 for one processed node: relax towards the edible
      ghosts, then the pills, then the power pills. */
  method RelaxNeighbours(env: Env, view: GhostView, node: int, distance: int,
                         pills: seq<int>, powerPills: seq<int>, f: Frontier, ghost nodes: set<int>)
    returns (r: Frontier)
    requires QueueIn(f.queue, nodes)
    requires forall g :: g in Ghosts && view.edibleTime(g) > 0 ==> view.location(g) in nodes
    requires forall t :: t in pills ==> t in nodes
    requires forall t :: t in powerPills ==> t in nodes
    ensures r == Expanded(f, env, view, node, distance, pills, powerPills)
    ensures QueueIn(r.queue, nodes)
  {
    r := RelaxEdibleGhosts(env, view, node, distance, Ghosts, f);
    RelaxGhostsWithin(f, env, view, node, distance, Ghosts, nodes);
    ghost var afterGhosts := r;
    r := RelaxTargets(env, node, distance, pills, r);
    RelaxAllWithin(afterGhosts, env, node, distance, pills, nodes);
    ghost var afterPills := r;
    r := RelaxTargets(env, node, distance, powerPills, r);
    RelaxAllWithin(afterPills, env, node, distance, powerPills, nodes);
  }

  /** A node the scan relaxes towards: a pill, a power pill, or the node of
      an edible ghost. */
  ghost predicate Target(view: GhostView, pills: seq<int>, powerPills: seq<int>, t: int)
  {
    || t in pills || t in powerPills
    || exists g :: g in Ghosts && view.edibleTime(g) > 0 && view.location(g) == t
  }

  /** How `r` grew out of `f` by relaxations from `node` at `distance`: no
      recorded node is lost, no pair leaves the queue, every new pair is a
      relaxation from `node`, and every distance that changed or is new has
      its own pair in the queue. */
  ghost predicate Grows(env: Env, node: int, distance: int, f: Frontier, r: Frontier)
  {
    && (forall k :: k in f.distances ==> k in r.distances)
    && (forall e :: e in f.queue ==> e in r.queue)
    && (forall e :: e in r.queue ==> e in f.queue || e.1 == distance + env.distance(node, e.0))
    && (forall k :: k in r.distances ==>
          (k in f.distances && r.distances[k] == f.distances[k]) || (k, r.distances[k]) in r.queue)
  }

  lemma GrowsTrans(env: Env, node: int, distance: int, a: Frontier, b: Frontier, c: Frontier)
    requires Grows(env, node, distance, a, b) && Grows(env, node, distance, b, c)
    ensures Grows(env, node, distance, a, c)
  {
  }

  /** No distance in `r` is above the one in `f` (absent counting as
      Integer.MAX_VALUE). */
  ghost predicate Lowers(f: Frontier, r: Frontier)
  {
    forall n :: Get(r.distances, n) <= Get(f.distances, n)
  }

  /** One relaxation from `node` grows the frontier. */
  lemma RelaxGrows(env: Env, node: int, distance: int, f: Frontier, t: int)
    ensures Grows(env, node, distance, f, Relax(f, t, distance + env.distance(node, t)))
  {
    var c := distance + env.distance(node, t);
    if Get(f.distances, t) > c {
      assert (t, c) in Relax(f, t, c).queue;
    }
  }

  /** Relaxing from `node` towards `targets` grows the frontier. */
  lemma {:induction false} RelaxAllGrows(f: Frontier, env: Env, node: int, distance: int, targets: seq<int>)
    ensures Grows(env, node, distance, f, RelaxAll(f, env, node, distance, targets))
  {
    if targets != [] {
      var init := targets[..|targets| - 1];
      RelaxAllGrows(f, env, node, distance, init);
      var mid := RelaxAll(f, env, node, distance, init);
      RelaxGrows(env, node, distance, mid, targets[|targets| - 1]);
      GrowsTrans(env, node, distance, f, mid, RelaxAll(f, env, node, distance, targets));
    }
  }

  /** Relaxing from `node` towards `targets` raises no distance and leaves
      each target at most its candidate, `distance` plus the way there. */
  lemma {:induction false} RelaxAllLowers(f: Frontier, env: Env, node: int, distance: int, targets: seq<int>)
    ensures Lowers(f, RelaxAll(f, env, node, distance, targets))
    ensures forall t :: t in targets ==>
      Get(RelaxAll(f, env, node, distance, targets).distances, t) <= distance + env.distance(node, t)
  {
    if targets != [] {
      var init := targets[..|targets| - 1];
      var last := targets[|targets| - 1];
      RelaxAllLowers(f, env, node, distance, init);
      var mid := RelaxAll(f, env, node, distance, init);
      RelaxOnlyLowers(mid, last, distance + env.distance(node, last));
      assert forall t :: t in targets ==> t in init || t == last;
    }
  }

  /** The same for the edible ghosts of `gs`. */
  lemma {:induction false} RelaxGhostsGrows(f: Frontier, env: Env, view: GhostView, node: int, distance: int,
                                            gs: seq<GhostId>)
    ensures Grows(env, node, distance, f, RelaxGhosts(f, env, view, node, distance, gs))
  {
    if gs != [] {
      var init := gs[..|gs| - 1];
      var last := gs[|gs| - 1];
      RelaxGhostsGrows(f, env, view, node, distance, init);
      var mid := RelaxGhosts(f, env, view, node, distance, init);
      if view.edibleTime(last) > 0 {
        RelaxGrows(env, node, distance, mid, view.location(last));
        GrowsTrans(env, node, distance, f, mid, RelaxGhosts(f, env, view, node, distance, gs));
      }
    }
  }

  lemma {:induction false} RelaxGhostsLowers(f: Frontier, env: Env, view: GhostView, node: int, distance: int,
                                             gs: seq<GhostId>)
    ensures Lowers(f, RelaxGhosts(f, env, view, node, distance, gs))
    ensures forall g :: g in gs && view.edibleTime(g) > 0 ==>
      Get(RelaxGhosts(f, env, view, node, distance, gs).distances, view.location(g))
        <= distance + env.distance(node, view.location(g))
  {
    if gs != [] {
      var init := gs[..|gs| - 1];
      var last := gs[|gs| - 1];
      RelaxGhostsLowers(f, env, view, node, distance, init);
      var mid := RelaxGhosts(f, env, view, node, distance, init);
      if view.edibleTime(last) > 0 {
        RelaxOnlyLowers(mid, view.location(last), distance + env.distance(node, view.location(last)));
      }
      assert forall g :: g in gs ==> g in init || g == last;
    }
  }

  /** Processing `node` at `distance` grows the frontier, raises no
      distance, and leaves every target at most `distance` plus the way
      there. */
  lemma ExpandedGrows(f: Frontier, env: Env, view: GhostView, node: int, distance: int,
                      pills: seq<int>, powerPills: seq<int>)
    ensures var r := Expanded(f, env, view, node, distance, pills, powerPills);
      && Grows(env, node, distance, f, r)
      && Lowers(f, r)
      && forall t :: Target(view, pills, powerPills, t) ==>
           Get(r.distances, t) <= distance + env.distance(node, t)
  {
    var a := RelaxGhosts(f, env, view, node, distance, Ghosts);
    var b := RelaxAll(a, env, node, distance, pills);
    var c := RelaxAll(b, env, node, distance, powerPills);
    RelaxGhostsGrows(f, env, view, node, distance, Ghosts);
    RelaxAllGrows(a, env, node, distance, pills);
    RelaxAllGrows(b, env, node, distance, powerPills);
    GrowsTrans(env, node, distance, f, a, b);
    GrowsTrans(env, node, distance, f, b, c);
    RelaxGhostsLowers(f, env, view, node, distance, Ghosts);
    RelaxAllLowers(a, env, node, distance, pills);
    RelaxAllLowers(b, env, node, distance, powerPills);
  }

  /** Position `k` of the queue holds a least distance: what poll() takes. */
  predicate IsLeastAt(queue: seq<(int, int)>, k: int)
  {
    0 <= k < |queue| && forall j :: 0 <= j < |queue| ==> queue[k].1 <= queue[j].1
  }

  /** A position of least distance in a non-empty queue. */
  function LeastDistance(queue: seq<(int, int)>): (k: nat)
    requires |queue| > 0
    ensures IsLeastAt(queue, k)
  {
    if |queue| == 1 then 0
    else
      var k := LeastDistance(queue[1..]) + 1;
      assert forall j :: 1 <= j < |queue| ==> queue[j] == queue[1..][j - 1];
      if queue[0].1 <= queue[k].1 then 0 else k
  }

  /** The queue after polling position `k` holds every pair of the queue
      but the polled one, and nothing else. */
  lemma PollRest(queue: seq<(int, int)>, k: nat)
    requires k < |queue|
    ensures forall e :: e in queue[..k] + queue[k + 1..] ==> e in queue
    ensures forall e :: e in queue ==> e == queue[k] || e in queue[..k] + queue[k + 1..]
  {
    var rest := queue[..k] + queue[k + 1..];
    forall e | e in rest
      ensures e in queue
    {
      if e in queue[..k] {
        var j :| 0 <= j < k && queue[..k][j] == e;
        assert queue[j] == e;
      } else {
        var j :| 0 <= j < |queue| - k - 1 && queue[k + 1..][j] == e;
        assert queue[k + 1 + j] == e;
      }
    }
    forall e | e in queue && e != queue[k]
      ensures e in rest
    {
      var j :| 0 <= j < |queue| && queue[j] == e;
      if j < k {
        assert rest[j] == e;
      } else {
        assert rest[j - 1] == e;
      }
    }
  }

  /** Removing the polled pair keeps the queue inside `nodes`. */
  lemma PollWithin(queue: seq<(int, int)>, k: nat, nodes: set<int>)
    requires QueueIn(queue, nodes) && k < |queue|
    ensures QueueIn(queue[..k] + queue[k + 1..], nodes) && queue[k].0 in nodes
  {
    assert queue[k] in queue;
    PollRest(queue, k);
  }

  /** The set of elements of a sequence. */
  ghost function Elements(s: seq<int>): (r: set<int>)
    ensures forall x :: x in r <==> x in s
  {
    if s == [] then {} else Elements(s[..|s| - 1]) + {s[|s| - 1]}
  }

  /** Every node the scan can enqueue: Pac-Man's, the edible ghosts',
      the pills' and the power pills'. */
  ghost function ScanNodes(view: GhostView, current: int, pills: seq<int>, powerPills: seq<int>)
    : (r: set<int>)
    ensures current in r
    ensures forall g :: g in Ghosts && view.edibleTime(g) > 0 ==> view.location(g) in r
    ensures forall t :: t in pills ==> t in r
    ensures forall t :: t in powerPills ==> t in r
  {
    {current} + (set g | g in Ghosts && view.edibleTime(g) > 0 :: view.location(g))
      + Elements(pills) + Elements(powerPills)
  }

  /** What the scan has processed, in order: distinct nodes, the first of
      them Pac-Man's own, none threatened by a ghost; `visited` is their
      set, inside `nodes`. */
  ghost predicate Scanned(env: Env, view: GhostView, current: int, processed: seq<int>,
                          visited: set<int>, nodes: set<int>)
  {
    && Distinct(processed)
    && (processed != [] ==> processed[0] == current)
    && (forall x :: x in visited <==> x in processed)
    && visited <= nodes
    && NoneThreatened(env, view, processed)
  }

  /** No ghost threatens any node of `s`. */
  ghost predicate NoneThreatened(env: Env, view: GhostView, s: seq<int>)
  {
    s != [] ==> NoneThreatened(env, view, s[..|s| - 1]) && FirstThreat(env, view, s[|s| - 1]).None?
  }

  lemma {:induction false} NoneThreatenedAt(env: Env, view: GhostView, s: seq<int>)
    ensures NoneThreatened(env, view, s) <==>
      forall j :: 0 <= j < |s| ==> FirstThreat(env, view, s[j]).None?
  {
    if s != [] {
      var init := s[..|s| - 1];
      NoneThreatenedAt(env, view, init);
      assert forall j :: 0 <= j < |init| ==> init[j] == s[j];
    }
  }

  /** Processing a new node that no ghost threatens extends the scan. */
  lemma Visit(env: Env, view: GhostView, current: int, processed: seq<int>, visited: set<int>,
              nodes: set<int>, node: int)
    requires Scanned(env, view, current, processed, visited, nodes)
    requires node !in visited && node in nodes && (processed == [] ==> node == current)
    requires FirstThreat(env, view, node).None?
    ensures Scanned(env, view, current, processed + [node], visited + {node}, nodes)
    ensures |nodes - (visited + {node})| < |nodes - visited|
  {
    assert node !in processed;
    AppendDistinct(processed, node);
    var next := processed + [node];
    assert forall x :: x in next <==> x in processed || x == node;
    assert next[..|processed|] == processed;
    Shrinks(nodes, visited, node);
  }

  /** A finished scan: the marked nodes are distinct, start at Pac-Man's
      node, and no ghost threatens any of them but perhaps the last. */
  ghost predicate ScanEnded(env: Env, view: GhostView, current: int, processed: seq<int>)
  {
    && |processed| > 0 && processed[0] == current && Distinct(processed)
    && forall j :: 0 <= j < |processed| - 1 ==> FirstThreat(env, view, processed[j]).None?
  }

  /** The last marked node is the node of `p`, and `p`'s ghost is the
      first to threaten it. */
  ghost predicate ThreatAtLast(env: Env, view: GhostView, processed: seq<int>, p: (int, GhostId))
  {
    processed != [] && p.0 == processed[|processed| - 1] && FirstThreat(env, view, p.0) == Some(p.1)
  }

  /** Marking a new node ends the scan, whatever the ghosts do there. */
  lemma Stop(env: Env, view: GhostView, current: int, processed: seq<int>, visited: set<int>,
             nodes: set<int>, node: int, g: GhostId)
    requires Scanned(env, view, current, processed, visited, nodes)
    requires node !in visited && (processed == [] ==> node == current)
    requires FirstThreat(env, view, node) == Some(g)
    ensures ScanEnded(env, view, current, processed + [node])
    ensures ThreatAtLast(env, view, processed + [node], (node, g))
  {
    assert (processed + [node])[..|processed|] == processed;
    NoneThreatenedAt(env, view, processed);
  }

  /** A scan whose queue runs empty has marked at least Pac-Man's node and
      found no threat at any node. */
  lemma Finished(env: Env, view: GhostView, current: int, processed: seq<int>, visited: set<int>,
                 nodes: set<int>)
    requires Scanned(env, view, current, processed, visited, nodes) && processed != []
    ensures ScanEnded(env, view, current, processed)
    ensures FirstThreat(env, view, processed[|processed| - 1]).None?
  {
    NoneThreatenedAt(env, view, processed);
  }

  /** What a finished scan leaves, `dists` holding the distance at which
      each marked node was polled: the marked nodes are distinct, start at
      Pac-Man's, are nodes the scan enqueues, and all but the last are
      unthreatened; each was reached from an earlier one, and where no
      distance is negative they come in order of distance. A scan that ends
      without a threat has marked every target Pac-Man's node reaches below
      Integer.MAX_VALUE; where no distance is negative, every such target
      nearer than the last poll distance was marked, whatever ended the
      scan. */
  ghost predicate ScanTrace(env: Env, view: GhostView, current: int, pills: seq<int>, powerPills: seq<int>,
                            processed: seq<int>, dists: seq<int>)
  {
    && ScanEnded(env, view, current, processed)
    && Trace(env, processed, dists)
    && (forall j :: 0 <= j < |processed| ==> processed[j] in ScanNodes(view, current, pills, powerPills))
    && (FirstThreat(env, view, processed[|processed| - 1]).None? ==>
          forall t :: Target(view, pills, powerPills, t) && env.distance(current, t) < IntMax ==>
            t in processed)
    && (Nonneg(env) ==>
          forall t :: Target(view, pills, powerPills, t) && env.distance(current, t) < IntMax &&
                      env.distance(current, t) < dists[|dists| - 1] ==>
            t in processed)
  }

  /** What the scan returns: a finished trace, and the threatened last
      node with its ghost, or no threat at the last node. */
  ghost predicate ScanResult(env: Env, view: GhostView, current: int, pills: seq<int>, powerPills: seq<int>,
                             found: Option<(int, GhostId)>, processed: seq<int>, dists: seq<int>)
  {
    && ScanTrace(env, view, current, pills, powerPills, processed, dists)
    && match found
       case Some(p) => ThreatAtLast(env, view, processed, p)
       case None => FirstThreat(env, view, processed[|processed| - 1]).None?
  }

  /** How a scan that marked `processed` decides: a threat at the last
      marked node gives the away move from it, and with no threat anywhere
      the random fallback (or, without legal moves, the reverse of the last
      move) decides. */
  ghost predicate ScanDecides(env: Env, view: GhostView, current: int, lastMoveMade: Move,
                              pills: seq<int>, powerPills: seq<int>,
                              processed: seq<int>, dists: seq<int>, outcome: Outcome)
  {
    var moves := env.possibleMoves(current, Some(lastMoveMade));
    && ScanTrace(env, view, current, pills, powerPills, processed, dists)
    && match FirstThreat(env, view, processed[|processed| - 1])
       case Some(g) =>
         outcome == Returned(env.nextAway(processed[|processed| - 1], view.location(g)))
       case None =>
         if moves == [] then outcome == Returned(env.opposite(lastMoveMade))
         else RandomValid(env, moves, lastMoveMade, outcome)
  }

  /** The invariant of the scan's loop: the queue holds nodes of `nodes`,
      the processed nodes are in shape, and before the first one is
      processed the queue is Pac-Man's node at distance 0. */
  ghost predicate ScanOk(env: Env, view: GhostView, current: int, frontier: Frontier,
                         processed: seq<int>, visited: set<int>, nodes: set<int>)
  {
    && QueueIn(frontier.queue, nodes)
    && Scanned(env, view, current, processed, visited, nodes)
    && (processed == [] ==> frontier.queue == [(current, 0)])
  }

  /** No distance of the maze is negative. */
  ghost predicate Nonneg(env: Env)
  {
    forall a, b :: env.distance(a, b) >= 0
  }

  /** `dists[j]` is the distance at which `processed[j]` was polled: 0 for
      Pac-Man's node, and for every later node the poll distance of an
      earlier processed node plus the distance from it; where no distance
      is negative the polls never come nearer. */
  ghost predicate Trace(env: Env, processed: seq<int>, dists: seq<int>)
  {
    && |dists| == |processed|
    && (dists != [] ==> dists[0] == 0)
    && Derived(env, processed, dists)
    && Ordered(env, dists)
  }

  ghost predicate Derived(env: Env, processed: seq<int>, dists: seq<int>)
    requires |dists| == |processed|
  {
    forall j :: 0 < j < |processed| ==> DerivedAt(env, processed, dists, j)
  }

  /** `processed[j]` was polled at an earlier marked node's poll distance
      plus the way from it. */
  ghost predicate DerivedAt(env: Env, processed: seq<int>, dists: seq<int>, j: int)
    requires |dists| == |processed| && 0 <= j < |processed|
  {
    exists i :: 0 <= i < j && dists[j] == dists[i] + env.distance(processed[i], processed[j])
  }

  ghost predicate Ordered(env: Env, dists: seq<int>)
  {
    Nonneg(env) ==> forall i, j :: 0 <= i <= j < |dists| ==> dists[i] <= dists[j]
  }

  /** Every pair in the queue is Pac-Man's initial pair, or a relaxation from
      a processed node at its poll distance; where no distance is negative,
      none is nearer than the last poll. */
  ghost predicate QueueTraced(env: Env, current: int, queue: seq<(int, int)>,
                              processed: seq<int>, dists: seq<int>)
  {
    && (forall e :: e in queue ==>
          || (processed == [] && e == (current, 0))
          || exists i :: 0 <= i < |processed| && i < |dists| &&
                         e.1 == dists[i] + env.distance(processed[i], e.0))
    && (Nonneg(env) && dists != [] ==> forall e :: e in queue ==> dists[|dists| - 1] <= e.1)
  }

  /** Lazy deletion loses no node: every node with a recorded distance has
      been visited or still has a pair in the queue at that very distance. */
  ghost predicate KeysQueued(f: Frontier, visited: set<int>)
  {
    forall k :: k in f.distances ==> k in visited || (k, f.distances[k]) in f.queue
  }

  /** Once Pac-Man's node is processed, every target has a recorded
      distance no greater than the way there from Pac-Man's node (absent
      counting as Integer.MAX_VALUE). */
  ghost predicate Reached(env: Env, view: GhostView, current: int, pills: seq<int>, powerPills: seq<int>,
                          f: Frontier, processed: seq<int>)
  {
    processed != [] ==>
      forall t :: Target(view, pills, powerPills, t) ==> Get(f.distances, t) <= env.distance(current, t)
  }

  /** The search half of the loop invariant. */
  ghost predicate Traced(env: Env, view: GhostView, current: int, pills: seq<int>, powerPills: seq<int>,
                         f: Frontier, processed: seq<int>, dists: seq<int>, visited: set<int>)
  {
    && Trace(env, processed, dists)
    && QueueTraced(env, current, f.queue, processed, dists)
    && KeysQueued(f, visited)
    && Reached(env, view, current, pills, powerPills, f, processed)
  }

  /** Polling a pair of least distance and processing its node extends the
      trace by that node at that distance. */
  lemma ExtendTrace(env: Env, current: int, queue: seq<(int, int)>, processed: seq<int>,
                    dists: seq<int>, k: nat)
    requires Trace(env, processed, dists) && QueueTraced(env, current, queue, processed, dists)
    requires IsLeastAt(queue, k) && (processed == [] ==> queue == [(current, 0)])
    ensures Trace(env, processed + [queue[k].0], dists + [queue[k].1])
  {
    assert queue[k] in queue;
    ExtendDerived(env, processed, dists, queue[k].0, queue[k].1);
    ExtendOrdered(env, current, queue, processed, dists, k);
  }

  /** The polled node's distance is an earlier marked node's distance plus
      the path from it. */
  lemma ExtendDerived(env: Env, processed: seq<int>, dists: seq<int>, node: int, d: int)
    requires |dists| == |processed| && Derived(env, processed, dists)
    requires processed != [] ==>
      exists i :: 0 <= i < |processed| && d == dists[i] + env.distance(processed[i], node)
    ensures Derived(env, processed + [node], dists + [d])
  {
    var p', d' := processed + [node], dists + [d];
    var n := |processed|;
    forall j | 0 < j < |p'|
      ensures DerivedAt(env, p', d', j)
    {
      if j < n {
        assert DerivedAt(env, processed, dists, j);
        var i :| 0 <= i < j && dists[j] == dists[i] + env.distance(processed[i], processed[j]);
        assert d'[j] == d'[i] + env.distance(p'[i], p'[j]);
      } else {
        var i :| 0 <= i < n && d == dists[i] + env.distance(processed[i], node);
        assert d'[j] == d'[i] + env.distance(p'[i], p'[j]);
      }
    }
  }

  /** Where no distance is negative, the polled distance is at least every
      earlier one. */
  lemma ExtendOrdered(env: Env, current: int, queue: seq<(int, int)>, processed: seq<int>,
                      dists: seq<int>, k: nat)
    requires Trace(env, processed, dists) && QueueTraced(env, current, queue, processed, dists)
    requires IsLeastAt(queue, k) && (processed == [] ==> queue == [(current, 0)])
    ensures Ordered(env, dists + [queue[k].1])
  {
    var d' := dists + [queue[k].1];
    var n := |dists|;
    if Nonneg(env) {
      assert queue[k] in queue;
      assert n > 0 ==> dists[n - 1] <= queue[k].1;
      forall i, j | 0 <= i <= j < n + 1
        ensures d'[i] <= d'[j]
      {
        if j < n {
          assert dists[i] <= dists[j];
        } else if i < n {
          assert dists[i] <= dists[n - 1];
        }
      }
    }
  }

  /** After processing the polled node, the queue is still traced. */
  lemma ExpandTraced(env: Env, current: int, queue: seq<(int, int)>, processed: seq<int>, dists: seq<int>,
                     k: nat, rest: Frontier, r: Frontier)
    requires Trace(env, processed, dists) && QueueTraced(env, current, queue, processed, dists)
    requires IsLeastAt(queue, k) && (processed == [] ==> queue == [(current, 0)])
    requires rest.queue == queue[..k] + queue[k + 1..]
    requires Grows(env, queue[k].0, queue[k].1, rest, r)
    ensures QueueTraced(env, current, r.queue, processed + [queue[k].0], dists + [queue[k].1])
  {
    PollRest(queue, k);
    ExpandDerived(env, current, queue, processed, dists, k, rest.queue, r.queue);
    ExpandOrdered(env, current, queue, processed, dists, k, rest.queue, r.queue);
  }

  /** Every pair of the new queue is a relaxation from a marked node. */
  lemma ExpandDerived(env: Env, current: int, queue: seq<(int, int)>, processed: seq<int>, dists: seq<int>,
                      k: nat, rest: seq<(int, int)>, next: seq<(int, int)>)
    requires |dists| == |processed| && QueueTraced(env, current, queue, processed, dists)
    requires k < |queue| && (processed == [] ==> queue == [(current, 0)])
    requires rest == queue[..k] + queue[k + 1..] && forall e :: e in rest ==> e in queue
    requires forall e :: e in next ==> e in rest || e.1 == queue[k].1 + env.distance(queue[k].0, e.0)
    ensures forall e :: e in next ==>
      exists i :: 0 <= i < |processed + [queue[k].0]| && i < |dists + [queue[k].1]| &&
        e.1 == (dists + [queue[k].1])[i] + env.distance((processed + [queue[k].0])[i], e.0)
  {
    var p', d' := processed + [queue[k].0], dists + [queue[k].1];
    assert forall i :: 0 <= i < |processed| ==> p'[i] == processed[i] && d'[i] == dists[i];
    forall e | e in next
      ensures exists i :: 0 <= i < |p'| && i < |d'| && e.1 == d'[i] + env.distance(p'[i], e.0)
    {
      if e in rest {
        assert e in queue;
        var i :| 0 <= i < |processed| && i < |dists| && e.1 == dists[i] + env.distance(processed[i], e.0);
        assert e.1 == d'[i] + env.distance(p'[i], e.0);
      } else {
        assert e.1 == d'[|processed|] + env.distance(p'[|processed|], e.0);
      }
    }
  }

  /** Where no distance is negative, no pair of the new queue is nearer
      than the polled one. */
  lemma ExpandOrdered(env: Env, current: int, queue: seq<(int, int)>, processed: seq<int>, dists: seq<int>,
                      k: nat, rest: seq<(int, int)>, next: seq<(int, int)>)
    requires IsLeastAt(queue, k)
    requires forall e :: e in rest ==> e in queue
    requires forall e :: e in next ==> e in rest || e.1 == queue[k].1 + env.distance(queue[k].0, e.0)
    ensures Nonneg(env) ==> forall e :: e in next ==> queue[k].1 <= e.1
  {
    if Nonneg(env) {
      forall e | e in next
        ensures queue[k].1 <= e.1
      {
        if e in rest {
          var j :| 0 <= j < |queue| && queue[j] == e;
        } else {
          assert forall a, b :: env.distance(a, b) >= 0;
        }
      }
    }
  }

  /** After processing the polled node, no recorded node is lost, and once
      Pac-Man's node is processed every target it reaches is recorded. */
  lemma ExpandKeys(env: Env, view: GhostView, current: int, pills: seq<int>, powerPills: seq<int>,
                   frontier: Frontier, processed: seq<int>, visited: set<int>, k: nat, r: Frontier)
    requires KeysQueued(frontier, visited) && Reached(env, view, current, pills, powerPills, frontier, processed)
    requires k < |frontier.queue| && (processed == [] ==> frontier.queue == [(current, 0)])
    requires Grows(env, frontier.queue[k].0, frontier.queue[k].1,
                   frontier.(queue := frontier.queue[..k] + frontier.queue[k + 1..]), r)
    requires Lowers(frontier, r)
    requires forall t :: Target(view, pills, powerPills, t) ==>
      Get(r.distances, t) <= frontier.queue[k].1 + env.distance(frontier.queue[k].0, t)
    ensures KeysQueued(r, visited + {frontier.queue[k].0})
    ensures Reached(env, view, current, pills, powerPills, r, processed + [frontier.queue[k].0])
  {
    var queue := frontier.queue;
    var node, d := queue[k].0, queue[k].1;
    var rest := frontier.(queue := queue[..k] + queue[k + 1..]);
    PollRest(queue, k);
    if processed == [] {
      assert k == 0 && node == current && d == 0;
    }
  }

  /** The whole invariant of the scan's loop. */
  ghost predicate Searching(env: Env, view: GhostView, current: int, pills: seq<int>, powerPills: seq<int>,
                            f: Frontier, processed: seq<int>, dists: seq<int>, visited: set<int>)
  {
    && ScanOk(env, view, current, f, processed, visited, ScanNodes(view, current, pills, powerPills))
    && Traced(env, view, current, pills, powerPills, f, processed, dists, visited)
  }

  /** Polling a node already visited keeps the search invariant. */
  lemma SkipPoll(env: Env, view: GhostView, current: int, pills: seq<int>, powerPills: seq<int>,
                 frontier: Frontier, processed: seq<int>, dists: seq<int>, visited: set<int>, k: nat)
    requires Traced(env, view, current, pills, powerPills, frontier, processed, dists, visited)
    requires k < |frontier.queue| && frontier.queue[k].0 in visited && processed != []
    ensures Traced(env, view, current, pills, powerPills,
                   frontier.(queue := frontier.queue[..k] + frontier.queue[k + 1..]), processed, dists, visited)
  {
    PollRest(frontier.queue, k);
  }

  /** Polling a pair of least distance and expanding its node, which no
      ghost threatens, keeps the search invariant. */
  lemma Advance(env: Env, view: GhostView, current: int, pills: seq<int>, powerPills: seq<int>,
                frontier: Frontier, processed: seq<int>, dists: seq<int>, visited: set<int>, k: nat)
    requires Traced(env, view, current, pills, powerPills, frontier, processed, dists, visited)
    requires IsLeastAt(frontier.queue, k) && (processed == [] ==> frontier.queue == [(current, 0)])
    ensures var rest := frontier.(queue := frontier.queue[..k] + frontier.queue[k + 1..]);
      var node, d := frontier.queue[k].0, frontier.queue[k].1;
      Traced(env, view, current, pills, powerPills, Expanded(rest, env, view, node, d, pills, powerPills),
             processed + [node], dists + [d], visited + {node})
  {
    var rest := frontier.(queue := frontier.queue[..k] + frontier.queue[k + 1..]);
    var node, d := frontier.queue[k].0, frontier.queue[k].1;
    var r := Expanded(rest, env, view, node, d, pills, powerPills);
    ExpandedGrows(rest, env, view, node, d, pills, powerPills);
    ExtendTrace(env, current, frontier.queue, processed, dists, k);
    ExpandTraced(env, current, frontier.queue, processed, dists, k, rest, r);
    ExpandKeys(env, view, current, pills, powerPills, frontier, processed, visited, k, r);
  }

  /** The search invariant holds at the start: Pac-Man's node, at distance
      0, is the only pair and the only recorded node. */
  lemma Started(env: Env, view: GhostView, current: int, pills: seq<int>, powerPills: seq<int>)
    ensures Searching(env, view, current, pills, powerPills, Frontier(map[current := 0], [(current, 0)]),
                      [], [], {})
  {
    var f := Frontier(map[current := 0], [(current, 0)]);
    assert f.queue[0] == (current, 0);
    assert forall k :: k in f.distances ==> k == current;
  }

  /** Polling position `k`: the polled node is one of `nodes`, Pac-Man's
      own on the first poll, and the rest of the queue keeps the loop
      invariant once a node has been processed. */
  lemma ScanPoll(env: Env, view: GhostView, current: int, frontier: Frontier,
                 processed: seq<int>, visited: set<int>, nodes: set<int>, k: nat)
    requires ScanOk(env, view, current, frontier, processed, visited, nodes) && k < |frontier.queue|
    ensures var rest := frontier.(queue := frontier.queue[..k] + frontier.queue[k + 1..]);
      && QueueIn(rest.queue, nodes) && frontier.queue[k].0 in nodes
      && (processed == [] ==> frontier.queue[k].0 == current && frontier.queue[k].0 !in visited)
      && (processed != [] ==> ScanOk(env, view, current, rest, processed, visited, nodes))
  {
    PollWithin(frontier.queue, k, nodes);
    if processed == [] {
      assert |frontier.queue| == 1 && k == 0;
    }
  }

  /** One pass of the scan's loop: poll a pair of least distance, skip a
      node already visited, and otherwise process it. The pass either ends
      the scan at a threatened node or keeps the loop invariant and marks a
      new node or shrinks the queue. */
  method Step(env: Env, view: GhostView, current: int, pills: seq<int>, powerPills: seq<int>,
              frontier: Frontier, ghost processed: seq<int>, ghost dists: seq<int>, visited: set<int>,
              ghost nodes: set<int>)
    returns (found: Option<(int, GhostId)>, next: Frontier, ghost processed': seq<int>, ghost dists': seq<int>,
             visited': set<int>)
    requires nodes == ScanNodes(view, current, pills, powerPills)
    requires Searching(env, view, current, pills, powerPills, frontier, processed, dists, visited)
    requires frontier.queue != []
    ensures found.Some? ==> ScanResult(env, view, current, pills, powerPills, found, processed', dists')
    ensures found.None? ==>
      && Searching(env, view, current, pills, powerPills, next, processed', dists', visited')
      && (|| |nodes - visited'| < |nodes - visited|
          || (visited' == visited && |next.queue| < |frontier.queue|))
  {
    ghost var least := LeastDistance(frontier.queue);
    var k :| 0 <= k < |frontier.queue| && IsLeastAt(frontier.queue, k);
    var nodePair := frontier.queue[k];
    var rest := frontier.(queue := frontier.queue[..k] + frontier.queue[k + 1..]);
    var node, distance := nodePair.0, nodePair.1;
    if node in visited {
      Skipped(env, view, current, pills, powerPills, frontier, processed, dists, visited, k);
      return None, rest, processed, dists, visited;
    }
    ScanPoll(env, view, current, frontier, processed, visited, nodes, k);
    var threat;
    threat, next, processed', visited' :=
      Process(env, view, current, pills, powerPills, rest, processed, visited, nodes, node, distance);
    dists' := dists + [distance];
    if threat.Some? {
      Stopped(env, view, current, pills, powerPills, frontier, processed, dists, visited, k, threat.value);
      return Some((node, threat.value)), next, processed', dists', visited';
    }
    Advance(env, view, current, pills, powerPills, frontier, processed, dists, visited, k);
    found := None;
  }

  /** The loop body for a polled node not yet visited: it is marked
      visited; strategy 1 looks for a ghost threatening it, and without one
      strategies 2 and 3 relax from it. */
  method Process(env: Env, view: GhostView, current: int, pills: seq<int>, powerPills: seq<int>,
                 frontier: Frontier, ghost processed: seq<int>, visited: set<int>, ghost nodes: set<int>,
                 node: int, distance: int)
    returns (threat: Option<GhostId>, next: Frontier, ghost processed': seq<int>, visited': set<int>)
    requires nodes == ScanNodes(view, current, pills, powerPills)
    requires QueueIn(frontier.queue, nodes) && Scanned(env, view, current, processed, visited, nodes)
    requires node !in visited && node in nodes && (processed == [] ==> node == current)
    ensures processed' == processed + [node] && visited' == visited + {node}
    ensures threat == FirstThreat(env, view, node)
    ensures threat.Some? ==>
      ScanEnded(env, view, current, processed') && ThreatAtLast(env, view, processed', (node, threat.value))
    ensures threat.None? ==>
      && next == Expanded(frontier, env, view, node, distance, pills, powerPills)
      && ScanOk(env, view, current, next, processed', visited', nodes)
      && |nodes - visited'| < |nodes - visited|
  {
    visited' := visited + {node};
    processed' := processed + [node];
    next := frontier;
    // Strategy 1
    threat := FindThreat(env, view, node);
    if threat.Some? {
      Stop(env, view, current, processed, visited, nodes, node, threat.value);
      return;
    }
    Visit(env, view, current, processed, visited, nodes, node);
    // Strategies 2 and 3
    next := RelaxNeighbours(env, view, node, distance, pills, powerPills, frontier, nodes);
  }

  /** A scan that stops at a threatened node leaves a finished trace. */
  lemma Halted(env: Env, view: GhostView, current: int, pills: seq<int>, powerPills: seq<int>,
               processed: seq<int>, dists: seq<int>, p: (int, GhostId))
    requires ScanEnded(env, view, current, processed) && ThreatAtLast(env, view, processed, p)
    requires Trace(env, processed, dists)
    requires forall j :: 0 <= j < |processed| ==> processed[j] in ScanNodes(view, current, pills, powerPills)
    requires Nonneg(env) ==>
      forall t :: Target(view, pills, powerPills, t) && env.distance(current, t) < IntMax &&
                  env.distance(current, t) < dists[|dists| - 1] ==>
        t in processed
    ensures ScanResult(env, view, current, pills, powerPills, Some(p), processed, dists)
  {
  }

  /** Polling a node already visited keeps the loop invariant. */
  lemma Skipped(env: Env, view: GhostView, current: int, pills: seq<int>, powerPills: seq<int>,
                frontier: Frontier, processed: seq<int>, dists: seq<int>, visited: set<int>, k: nat)
    requires Searching(env, view, current, pills, powerPills, frontier, processed, dists, visited)
    requires k < |frontier.queue| && frontier.queue[k].0 in visited
    ensures Searching(env, view, current, pills, powerPills,
                      frontier.(queue := frontier.queue[..k] + frontier.queue[k + 1..]), processed, dists, visited)
  {
    ScanPoll(env, view, current, frontier, processed, visited, ScanNodes(view, current, pills, powerPills), k);
    SkipPoll(env, view, current, pills, powerPills, frontier, processed, dists, visited, k);
  }

  /** Polling a pair of least distance whose node a ghost threatens, once
      that node is marked, ends the scan with that node and ghost; every
      target nearer than that pair was marked before it. */
  lemma Stopped(env: Env, view: GhostView, current: int, pills: seq<int>, powerPills: seq<int>,
                frontier: Frontier, processed: seq<int>, dists: seq<int>, visited: set<int>, k: nat, g: GhostId)
    requires Scanned(env, view, current, processed, visited, ScanNodes(view, current, pills, powerPills))
    requires Traced(env, view, current, pills, powerPills, frontier, processed, dists, visited)
    requires IsLeastAt(frontier.queue, k) && (processed == [] ==> frontier.queue == [(current, 0)])
    requires frontier.queue[k].0 in ScanNodes(view, current, pills, powerPills)
    requires ScanEnded(env, view, current, processed + [frontier.queue[k].0])
    requires ThreatAtLast(env, view, processed + [frontier.queue[k].0], (frontier.queue[k].0, g))
    ensures ScanResult(env, view, current, pills, powerPills, Some((frontier.queue[k].0, g)),
                       processed + [frontier.queue[k].0], dists + [frontier.queue[k].1])
  {
    var queue := frontier.queue;
    var nodes := ScanNodes(view, current, pills, powerPills);
    var p' := processed + [queue[k].0];
    ExtendTrace(env, current, queue, processed, dists, k);
    if Nonneg(env) {
      if processed == [] {
        assert k == 0 && queue[k].1 == 0;
      }
      forall t | Target(view, pills, powerPills, t) && env.distance(current, t) < IntMax &&
                 env.distance(current, t) < queue[k].1
        ensures t in p'
      {
        if processed == [] {
          assert false;
        } else if t !in visited {
          assert false;
        }
      }
    }
    forall j | 0 <= j < |p'|
      ensures p'[j] in nodes
    {
      if j < |processed| {
        assert p'[j] == processed[j] && processed[j] in visited;
      }
    }
    Halted(env, view, current, pills, powerPills, p', dists + [queue[k].1], (queue[k].0, g));
  }

  /** A scan whose queue runs dry has marked every recorded node, so every
      target Pac-Man's node reaches, and no marked node is threatened. */
  lemma Drained(env: Env, view: GhostView, current: int, pills: seq<int>, powerPills: seq<int>,
                frontier: Frontier, processed: seq<int>, dists: seq<int>, visited: set<int>)
    requires frontier.queue == []
    requires Searching(env, view, current, pills, powerPills, frontier, processed, dists, visited)
    ensures ScanResult(env, view, current, pills, powerPills, None, processed, dists)
  {
    var nodes := ScanNodes(view, current, pills, powerPills);
    Finished(env, view, current, processed, visited, nodes);
    forall j | 0 <= j < |processed|
      ensures processed[j] in nodes
    {
      assert processed[j] in visited;
    }
  }

  /** The scan of getMove's while loop: a Dijkstra search from Pac-Man's
      node over the edible ghosts, pills and power pills, which stops at
      the first marked node a ghost threatens. `processed` is the sequence
      of marked nodes and `dists` their poll distances; `found` is the
      threatened node and its ghost, when there is one. */
  method Scan(env: Env, view: GhostView, current: int, pills: seq<int>, powerPills: seq<int>)
    returns (found: Option<(int, GhostId)>, ghost processed: seq<int>, ghost dists: seq<int>)
    ensures ScanResult(env, view, current, pills, powerPills, found, processed, dists)
    ensures found.Some? ==> FirstThreat(env, view, found.value.0) == Some(found.value.1)
  {
    processed, dists := [], [];
    ghost var nodes := ScanNodes(view, current, pills, powerPills);
    var frontier := Frontier(map[current := 0], [(current, 0)]);
    var visited: set<int> := {};
    Started(env, view, current, pills, powerPills);
    while frontier.queue != []
      invariant Searching(env, view, current, pills, powerPills, frontier, processed, dists, visited)
      decreases |nodes - visited|, |frontier.queue|
    {
      found, frontier, processed, dists, visited :=
        Step(env, view, current, pills, powerPills, frontier, processed, dists, visited, nodes);
      if found.Some? {
        return found, processed, dists;
      }
    }
    Drained(env, view, current, pills, powerPills, frontier, processed, dists, visited);
    return None, processed, dists;
  }

  /** getMove. `lastMoveMade` is getPacmanLastMoveMade(), `pills` and
      `powerPills` getPillIndices and getPowerPillIndices; `processed` is
      the sequence of nodes the scan marked visited and `dists` their poll
      distances. The scan starts at Pac-Man's node, marks each node at most
      once, and ends getMove with the away move at the first marked node a
      ghost threatens; only when no marked node is threatened, after every
      reachable target has been marked, does the random fallback run. Where
      a junction has more than two neighbours, as in the engine's mazes,
      the corner shortcut is never taken and the scan always runs. */
  method GetMove(env: Env, view: GhostView, current: int, lastMoveMade: Move,
                 pills: seq<int>, powerPills: seq<int>)
    returns (outcome: Outcome, ghost processed: seq<int>, ghost dists: seq<int>)
    ensures var moves := env.possibleMoves(current, Some(lastMoveMade));
      if IsInCorner(env, current) && moves != [] then
        processed == [] && RandomValid(env, moves, lastMoveMade, outcome)
      else ScanDecides(env, view, current, lastMoveMade, pills, powerPills, processed, dists, outcome)
    ensures (env.isJunction(current) ==> |env.neighbouringNodes(current)| > 2) ==> processed != []
    ensures outcome == Thrown(UnsupportedOperation) ==>
      env.opposite(lastMoveMade) in env.possibleMoves(current, Some(lastMoveMade))
  {
    processed, dists := [], [];
    if IsInCorner(env, current) {
      var moves := env.possibleMoves(current, Some(lastMoveMade));
      if |moves| > 0 {
        outcome := RandomValidMove(env, moves, lastMoveMade);
        return;
      }
    }
    var found;
    found, processed, dists := Scan(env, view, current, pills, powerPills);
    if found.Some? {
      return Returned(env.nextAway(found.value.0, view.location(found.value.1))), processed, dists;
    }
    // Strategy 4
    var moves := env.possibleMoves(current, Some(lastMoveMade));
    if |moves| > 0 {
      outcome := RandomValidMove(env, moves, lastMoveMade);
      return;
    }
    return Returned(env.opposite(lastMoveMade)), processed, dists;
  }
}
