/** What the Pac-Man controllers Q_RL and Dijkstra read about the ghosts,
    and the ghost loop both of them start with: flee from the first ghost,
    in enum order, that is neither edible nor in the lair, is visible and
    is closer than MIN_DISTANCE. */
module PacmanView {
  import opened Engine

  /** getGhostEdibleTime, getGhostLairTime and getGhostCurrentNodeIndex
      (-1 when the ghost is not visible). */
  datatype GhostView = GhostView(edibleTime: GhostId -> int, lairTime: GhostId -> int,
                                 location: GhostId -> int)

  /** The threat radius, 20 in both controllers (MIN_DISTANCE in Dijkstra). */
  const MinDistance: int := 20

  /** The shortest-path distance from `from` to the ghost's reported node. */
  function Dist(env: Env, view: GhostView, from: int, g: GhostId): int
  {
    env.distance(from, view.location(g))
  }

  /** A ghost that Pac-Man at `from` runs away from. */
  predicate IsThreat(env: Env, view: GhostView, from: int, g: GhostId)
  {
    && view.edibleTime(g) == 0 && view.lairTime(g) == 0
    && view.location(g) != -1
    && Dist(env, view, from, g) < MinDistance
  }

  /** The first threat among `gs`, in their order. */
  function ThreatIn(env: Env, view: GhostView, from: int, gs: seq<GhostId>): Option<GhostId>
  {
    if gs == [] then None
    else if IsThreat(env, view, from, gs[0]) then Some(gs[0])
    else ThreatIn(env, view, from, gs[1..])
  }

  /** The ghost the first loop of getMove flees from, if any: the first
      threat in enum order. */
  function FirstThreat(env: Env, view: GhostView, from: int): Option<GhostId>
  {
    if IsThreat(env, view, from, Blinky) then Some(Blinky)
    else if IsThreat(env, view, from, Pinky) then Some(Pinky)
    else if IsThreat(env, view, from, Inky) then Some(Inky)
    else if IsThreat(env, view, from, Sue) then Some(Sue)
    else None
  }

  /** Searching GHOST.values() in order finds the first threat. */
  lemma ThreatInGhosts(env: Env, view: GhostView, from: int)
    ensures ThreatIn(env, view, from, Ghosts) == FirstThreat(env, view, from)
  {
    var s3, s2, s1: seq<GhostId> := [Pinky, Inky, Sue], [Inky, Sue], [Sue];
    assert s1[0] == Sue && s1[1..] == [];
    assert ThreatIn(env, view, from, s1) == if IsThreat(env, view, from, Sue) then Some(Sue) else None;
    assert s2[0] == Inky && s2[1..] == s1;
    assert ThreatIn(env, view, from, s2) ==
      if IsThreat(env, view, from, Inky) then Some(Inky) else ThreatIn(env, view, from, s1);
    assert s3[0] == Pinky && s3[1..] == s2;
    assert ThreatIn(env, view, from, s3) ==
      if IsThreat(env, view, from, Pinky) then Some(Pinky) else ThreatIn(env, view, from, s2);
    assert Ghosts[0] == Blinky && Ghosts[1..] == s3;
    assert ThreatIn(env, view, from, Ghosts) ==
      if IsThreat(env, view, from, Blinky) then Some(Blinky) else ThreatIn(env, view, from, s3);
  }

  lemma {:induction false} ThreatInCorrect(env: Env, view: GhostView, from: int, gs: seq<GhostId>)
    ensures ThreatIn(env, view, from, gs).None? <==>
      forall j :: 0 <= j < |gs| ==> !IsThreat(env, view, from, gs[j])
    ensures ThreatIn(env, view, from, gs).Some? ==>
      exists k :: 0 <= k < |gs| && gs[k] == ThreatIn(env, view, from, gs).value
        && IsThreat(env, view, from, gs[k])
        && forall j :: 0 <= j < k ==> !IsThreat(env, view, from, gs[j])
  {
    if gs != [] {
      ThreatInCorrect(env, view, from, gs[1..]);
      assert forall j :: 1 <= j < |gs| ==> gs[j] == gs[1..][j - 1];
      if !IsThreat(env, view, from, gs[0]) && ThreatIn(env, view, from, gs[1..]).Some? {
        var k :| 0 <= k < |gs[1..]| && gs[1..][k] == ThreatIn(env, view, from, gs[1..]).value
          && IsThreat(env, view, from, gs[1..][k])
          && forall j :: 0 <= j < k ==> !IsThreat(env, view, from, gs[1..][j]);
        assert gs[k + 1] == gs[1..][k];
      }
    }
  }

  /** There is no threat exactly when no ghost is one; otherwise the threat
      found is a ghost that is one, and no ghost before it in enum order is. */
  lemma FirstThreatCorrect(env: Env, view: GhostView, from: int)
    ensures FirstThreat(env, view, from).None? <==> forall g :: !IsThreat(env, view, from, g)
    ensures FirstThreat(env, view, from).Some? ==>
      var g := FirstThreat(env, view, from).value;
      && IsThreat(env, view, from, g)
      && forall h :: GhostOrdinal(h) < GhostOrdinal(g) ==> !IsThreat(env, view, from, h)
  {
    ThreatInCorrect(env, view, from, Ghosts);
    ThreatInGhosts(env, view, from);
    if FirstThreat(env, view, from).None? {
      forall g
        ensures !IsThreat(env, view, from, g)
      {
        assert Ghosts[GhostOrdinal(g)] == g;
      }
    } else {
      var g := FirstThreat(env, view, from).value;
      var k :| 0 <= k < |Ghosts| && Ghosts[k] == g && IsThreat(env, view, from, Ghosts[k])
        && forall j :: 0 <= j < k ==> !IsThreat(env, view, from, Ghosts[j]);
      assert k == GhostOrdinal(g);
      forall h | GhostOrdinal(h) < GhostOrdinal(g)
        ensures !IsThreat(env, view, from, h)
      {
        assert Ghosts[GhostOrdinal(h)] == h;
      }
    }
  }

  /** The ghost loop: for each ghost in GHOST.values(), a non-edible one out
      of the lair is looked up, and a visible one within MIN_DISTANCE ends
      the loop. */
  method FindThreat(env: Env, view: GhostView, from: int) returns (threat: Option<GhostId>)
    ensures threat == FirstThreat(env, view, from)
  {
    ThreatInGhosts(env, view, from);
    for i := 0 to |Ghosts|
      invariant ThreatIn(env, view, from, Ghosts[i..]) == FirstThreat(env, view, from)
    {
      var g := Ghosts[i];
      assert Ghosts[i..][1..] == Ghosts[i + 1..];
      if view.edibleTime(g) == 0 && view.lairTime(g) == 0 {
        var ghostLocation := view.location(g);
        if ghostLocation != -1 {
          if env.distance(from, ghostLocation) < MinDistance {
            return Some(g);
          }
        }
      }
    }
    return None;
  }
}
