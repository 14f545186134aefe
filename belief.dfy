/** The belief a ghost keeps about Ms Pac-Man's position under partial
    observability, and the message board the ghosts share. Both ghost
    controllers (MCTS_POCommGhost and QLearning_POCommGhost) carry the same
    two fields, `lastPacmanIndex` and `tickSeen`, and the same update code;
    it is modelled once, as the class `Tracker` that each controller owns. */
module Belief {
  import opened Engine

  /** BasicMessage.MessageType: only PACMAN_SEEN is read or written here. */
  datatype MessageType = PacmanSeen | OtherType

  /** A BasicMessage as the ghosts use it: sender, type, data and tick. */
  datatype Message = Message(sender: GhostId, kind: MessageType, data: int, tick: int)

  /** The Messenger: an order-preserving, append-only board of messages. */
  class Messenger {
    var log: seq<Message>

    constructor ()
      ensures log == []
    {
      log := [];
    }

    method AddMessage(m: Message)
      modifies this
      ensures log == old(log) + [m]
    {
      log := log + [m];
    }
  }

  /** The two belief fields: -1 stands for "unknown" in both. */
  datatype BeliefState = BeliefState(lastPacmanIndex: int, tickSeen: int)

  const Unknown := BeliefState(-1, -1)

  /** The housekeeping test: the first ticks of a level, or a belief at least
      `threshold` ticks old. */
  predicate Stale(b: BeliefState, now: int, threshold: int)
  {
    now <= 2 || now - b.tickSeen >= threshold
  }

  function Housekeep(b: BeliefState, now: int, threshold: int): BeliefState
  {
    if Stale(b, now, threshold) then Unknown else b
  }

  /** The guard on a relayed message, against the tick held when it is read. */
  predicate Relayable(m: Message, held: int, now: int)
  {
    m.kind == PacmanSeen && held < m.tick < now
  }

  function RelayStep(b: BeliefState, m: Message, now: int): BeliefState
  {
    if Relayable(m, b.tickSeen, now) then BeliefState(m.data, m.tick) else b
  }

  /** The belief after scanning `msgs` in order, adopting each message whose
      tick beats the one held at that moment. */
  function Relay(b: BeliefState, msgs: seq<Message>, now: int): BeliefState
    decreases |msgs|
  {
    if msgs == [] then b
    else RelayStep(Relay(b, msgs[..|msgs| - 1], now), msgs[|msgs| - 1], now)
  }

  /** The whole belief update of one getMove call: housekeeping, then either the
      direct sighting (`sighted != -1`) or, when there is a messenger, the
      relayed messages. */
  function Observe(b: BeliefState, now: int, threshold: int, sighted: int,
                   inbox: Option<seq<Message>>): BeliefState
  {
    var kept := Housekeep(b, now, threshold);
    if sighted != -1 then BeliefState(sighted, now)
    else if inbox.Some? then Relay(kept, inbox.value, now)
    else kept
  }

  /** `k` is the first message carrying the largest tick among the messages
      that pass the guard against the tick `held` before the scan. */
  ghost predicate FirstNewest(msgs: seq<Message>, held: int, now: int, k: int)
  {
    && 0 <= k < |msgs|
    && Relayable(msgs[k], held, now)
    && (forall j :: 0 <= j < |msgs| && Relayable(msgs[j], held, now) ==> msgs[j].tick <= msgs[k].tick)
    && (forall j :: 0 <= j < k && Relayable(msgs[j], held, now) ==> msgs[j].tick < msgs[k].tick)
  }

  ghost predicate NoneRelayable(msgs: seq<Message>, held: int, now: int)
  {
    forall j :: 0 <= j < |msgs| ==> !Relayable(msgs[j], held, now)
  }

  /** What the relayed scan computes, stated without the loop: with no message
      passing the guard the belief is unchanged; otherwise the tick adopted is
      the largest qualifying tick in (held, now), and the position is the data
      of the first message carrying that tick. */
  lemma {:induction false} RelayAdoptsNewest(b: BeliefState, msgs: seq<Message>, now: int)
    ensures NoneRelayable(msgs, b.tickSeen, now) ==> Relay(b, msgs, now) == b
    ensures !NoneRelayable(msgs, b.tickSeen, now) ==>
      exists k :: FirstNewest(msgs, b.tickSeen, now, k) &&
        Relay(b, msgs, now) == BeliefState(msgs[k].data, msgs[k].tick)
    decreases |msgs|
  {
    if msgs != [] {
      var n := |msgs| - 1;
      var init := msgs[..n];
      RelayAdoptsNewest(b, init, now);
      var mid := Relay(b, init, now);
      var m := msgs[n];
      assert Relay(b, msgs, now) == RelayStep(mid, m, now);
      if NoneRelayable(init, b.tickSeen, now) {
        LastNewest(msgs, b.tickSeen, now);
      } else {
        var k :| FirstNewest(init, b.tickSeen, now, k) && mid == BeliefState(init[k].data, init[k].tick);
        if Relayable(m, mid.tickSeen, now) {
          OvertakenNewest(msgs, b.tickSeen, now, k);
        } else {
          KeptNewest(msgs, b.tickSeen, now, k);
        }
      }
    }
  }

  /** After a prefix in which nothing passes the guard, the last message
      decides alone. */
  lemma LastNewest(msgs: seq<Message>, held: int, now: int)
    requires |msgs| > 0 && NoneRelayable(msgs[..|msgs| - 1], held, now)
    ensures Relayable(msgs[|msgs| - 1], held, now) ==> FirstNewest(msgs, held, now, |msgs| - 1)
    ensures !Relayable(msgs[|msgs| - 1], held, now) ==> NoneRelayable(msgs, held, now)
  {
    var n := |msgs| - 1;
    assert forall j :: 0 <= j < n ==> msgs[..n][j] == msgs[j];
  }

  /** A last message strictly newer than the prefix's newest becomes the
      newest. */
  lemma OvertakenNewest(msgs: seq<Message>, held: int, now: int, k: int)
    requires |msgs| > 0 && FirstNewest(msgs[..|msgs| - 1], held, now, k)
    requires Relayable(msgs[|msgs| - 1], msgs[k].tick, now)
    ensures FirstNewest(msgs, held, now, |msgs| - 1)
  {
    var n := |msgs| - 1;
    assert forall j :: 0 <= j < n ==> msgs[..n][j] == msgs[j];
  }

  /** A last message that does not beat the prefix's newest leaves it the
      newest. */
  lemma KeptNewest(msgs: seq<Message>, held: int, now: int, k: int)
    requires |msgs| > 0 && FirstNewest(msgs[..|msgs| - 1], held, now, k)
    requires !Relayable(msgs[|msgs| - 1], msgs[k].tick, now)
    ensures FirstNewest(msgs, held, now, k) && !NoneRelayable(msgs, held, now)
  {
    var n := |msgs| - 1;
    assert forall j :: 0 <= j < n ==> msgs[..n][j] == msgs[j];
  }

  /** The relayed scan never moves the held tick backwards, and anything it
      adopts is strictly newer than the held tick and strictly older than now. */
  lemma {:induction false} RelayMonotone(b: BeliefState, msgs: seq<Message>, now: int)
    ensures Relay(b, msgs, now).tickSeen >= b.tickSeen
    ensures Relay(b, msgs, now) != b ==> b.tickSeen < Relay(b, msgs, now).tickSeen < now
    decreases |msgs|
  {
    if msgs != [] {
      RelayMonotone(b, msgs[..|msgs| - 1], now);
    }
  }

  /** The relayed guard checks no staleness: right after a reset, any sighting
      relayed from before `now` is adopted, even one at least `threshold`
      ticks old, and the belief adopted is then itself stale. */
  lemma RelayIgnoresStaleness(b: BeliefState, now: int, threshold: int, m: Message)
    requires Stale(b, now, threshold)
    requires m.kind == PacmanSeen && -1 < m.tick < now
    ensures var r := Observe(b, now, threshold, -1, Some([m]));
            r == BeliefState(m.data, m.tick) &&
            (now - m.tick >= threshold ==> Stale(r, now, threshold))
  {
    var msgs := [m];
    assert Housekeep(b, now, threshold) == Unknown;
    assert msgs[..0] == [];
    assert Relay(Unknown, msgs, now) == RelayStep(Relay(Unknown, [], now), msgs[0], now);
  }

  /** After the housekeeping, a stale belief is unknown in both fields, and a
      belief that is not stale is kept as it was. */
  lemma HousekeepResets(b: BeliefState, now: int, threshold: int)
    ensures Stale(b, now, threshold) ==> Housekeep(b, now, threshold) == Unknown
    ensures !Stale(b, now, threshold) ==> Housekeep(b, now, threshold) == b
  {
  }

  /** A direct sighting overrides whatever was believed, whatever the
      messages say. */
  lemma SightingOverrides(b: BeliefState, now: int, threshold: int, sighted: int,
                          inbox: Option<seq<Message>>)
    requires sighted != -1
    ensures Observe(b, now, threshold, sighted, inbox) == BeliefState(sighted, now)
  {
  }

  /** The staleness scenario with TICK_THRESHOLD = 5: a sighting at tick 10 is
      still believed at tick 14, and is gone at tick 15 (and so at tick 16). */
  lemma StalenessScenario(p: int)
    requires p != -1
    ensures var b10 := Observe(Unknown, 10, 5, p, None);
            var b14 := Observe(Observe(Observe(Observe(b10, 11, 5, -1, None), 12, 5, -1, None), 13, 5, -1, None), 14, 5, -1, Some([]));
            var b15 := Observe(b14, 15, 5, -1, Some([]));
            b14 == BeliefState(p, 10) && b15 == Unknown && Observe(b15, 16, 5, -1, Some([])) == Unknown
  {
  }

  /** The belief fields of one ghost controller, with the code of getMove that
      maintains them and the closeToPower helper that reads them. */
  class Tracker {
    const me: GhostId
    const tickThreshold: int
    var lastPacmanIndex: int
    var tickSeen: int

    function State(): BeliefState
      reads this
    {
      BeliefState(lastPacmanIndex, tickSeen)
    }

    constructor (me: GhostId, tickThreshold: int)
      ensures this.me == me && this.tickThreshold == tickThreshold
      ensures State() == Unknown
    {
      this.me := me;
      this.tickThreshold := tickThreshold;
      lastPacmanIndex := -1;
      tickSeen := -1;
    }

    /** The belief part of getMove: housekeeping, the direct sighting and its
        broadcast, the relayed scan; returns the position getMove then plans
        against (`pacmanIndex` after it has fallen back on the belief). */
    method Update(now: int, pacmanIndex: int, messenger: Messenger?) returns (target: int)
      modifies this, messenger
      ensures State() == Observe(old(State()), now, tickThreshold, pacmanIndex,
                                 if messenger == null then None else Some(old(messenger.log)))
      ensures messenger != null ==>
        messenger.log == old(messenger.log) +
          (if pacmanIndex != -1 then [Message(me, PacmanSeen, pacmanIndex, now)] else [])
      ensures target == if pacmanIndex != -1 then pacmanIndex else lastPacmanIndex
    {
      if now <= 2 || now - tickSeen >= tickThreshold {
        lastPacmanIndex := -1;
        tickSeen := -1;
      }
      ghost var kept := State();
      if pacmanIndex != -1 {
        lastPacmanIndex := pacmanIndex;
        tickSeen := now;
        if messenger != null {
          messenger.AddMessage(Message(me, PacmanSeen, pacmanIndex, now));
        }
      }
      if pacmanIndex == -1 && messenger != null {
        var msgs := messenger.log;
        var i := 0;
        while i < |msgs|
          invariant 0 <= i <= |msgs|
          invariant State() == Relay(kept, msgs[..i], now)
          invariant messenger.log == msgs
        {
          var message := msgs[i];
          if message.kind == PacmanSeen {
            if message.tick > tickSeen && message.tick < now {
              lastPacmanIndex := message.data;
              tickSeen := message.tick;
            }
          }
          assert msgs[..i + 1][..i] == msgs[..i];
          i := i + 1;
        }
        assert msgs[..i] == msgs;
      }
      target := pacmanIndex;
      if pacmanIndex == -1 {
        target := lastPacmanIndex;
      }
    }

    /** closeToPower: Ms Pac-Man's position is the live one or else the
        believed one; the scan of the power pills answers false at the first
        pill whose availability is unknown, or when the position is unknown,
        and true at the first available pill closer than PILL_PROXIMITY. */
    method CloseToPower(powerPills: seq<int>, available: int -> Option<bool>,
                        livePacman: int, distance: (int, int) -> int) returns (close: bool)
      ensures close <==> NearAvailablePill(powerPills, available,
                                           if livePacman == -1 then lastPacmanIndex else livePacman, distance)
    {
      ghost var pacman := if livePacman == -1 then lastPacmanIndex else livePacman;
      var i := 0;
      while i < |powerPills|
        invariant 0 <= i <= |powerPills|
        invariant forall j :: 0 <= j < i ==> available(j).Some?
        invariant forall j :: 0 <= j < i ==> !PillWithin(powerPills, available, pacman, distance, j)
      {
        var stillAvailable := available(i);
        var pacmanNodeIndex := livePacman;
        if pacmanNodeIndex == -1 {
          pacmanNodeIndex := lastPacmanIndex;
        }
        if stillAvailable.None? || pacmanNodeIndex == -1 {
          close := false;
          if stillAvailable.None? {
            forall j | i <= j < |powerPills|
              ensures !PillWithin(powerPills, available, pacman, distance, j)
            {
              assert 0 <= i <= j;
            }
          }
          return;
        }
        if stillAvailable.value && distance(powerPills[i], pacmanNodeIndex) < PillProximity {
          close := true;
          assert PillWithin(powerPills, available, pacman, distance, i);
          return;
        }
        i := i + 1;
      }
      close := false;
    }
  }

  /** PILL_PROXIMITY of both ghost controllers. */
  const PillProximity := 15

  /** Power pill `i` is available, every earlier availability is known, and it
      is closer than PILL_PROXIMITY to `pacman`. */
  ghost predicate PillWithin(powerPills: seq<int>, available: int -> Option<bool>,
                             pacman: int, distance: (int, int) -> int, i: int)
  {
    && 0 <= i < |powerPills|
    && (forall j :: 0 <= j <= i ==> available(j).Some?)
    && available(i) == Some(true)
    && distance(powerPills[i], pacman) < PillProximity
  }

  ghost predicate NearAvailablePill(powerPills: seq<int>, available: int -> Option<bool>,
                                    pacman: int, distance: (int, int) -> int)
  {
    pacman != -1 && exists i :: PillWithin(powerPills, available, pacman, distance, i)
  }
}
