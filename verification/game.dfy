/**
 * The simulation part of the `game` object of scripts/script.js: the
 * players, the running flag and the two frame timestamps, with the
 * operations the user interface calls. Every method is proved against the
 * value-level description in module Rounds through RoundState().
 * Screens, audio, the canvas and frame scheduling are not modelled; the
 * host's frame callback is DrawLoop with the timestamp as a parameter.
 */
module Games {
  import opened Wrappers
  import opened Geometry
  import opened Bikes
  import opened Rounds
  import opened Players

  class Game {
    var isRunning: bool
    var players: seq<Player>
    var lastTimestamp: Option<real>
    var deathTimestamp: Option<real>

    ghost function RoundState(): Round
      reads this, players
    {
      Round(isRunning, Snapshot(players), lastTimestamp, deathTimestamp)
    }

    /**
     * At most two distinct players; a running game has exactly two; a
     * stopped game has no timestamps; every player satisfies its invariant.
     */
    ghost predicate Valid()
      reads this, players
    {
      && |players| <= 2
      && (forall i, j :: 0 <= i < j < |players| ==> players[i] != players[j])
      && (isRunning ==> |players| == 2)
      && (!isRunning ==> lastTimestamp == None && deathTimestamp == None)
      && (forall k :: 0 <= k < |players| ==> players[k].Valid())
    }

    constructor ()
      ensures Valid()
      ensures !isRunning && players == [] && lastTimestamp == None && deathTimestamp == None
    {
      isRunning := false;
      players := [];
      lastTimestamp := None;
      deathTimestamp := None;
    }

    /**
     * Register a player with the spawn its number gives it; a player
     * without a name is not added.
     */
    method AddPlayer(name: string, bikeColor: string)
      requires Valid() && |players| < 2
      modifies this`players
      ensures Valid()
      ensures isRunning == old(isRunning)
      ensures lastTimestamp == old(lastTimestamp) && deathTimestamp == old(deathTimestamp)
      ensures name == "" ==> players == old(players)
      ensures name != "" ==>
        && |players| == |old(players)| + 1
        && players[..|old(players)|] == old(players)
        && fresh(players[|players| - 1])
        && players[|players| - 1].name == name
        && Snapshot(players) == old(Snapshot(players)) + [NewBike(StartingConditions(|players|))]
      ensures name != "" ==> players[|old(players)|].lastDirection == None
    {
      if name == "" {
        return;
      }
      var playerNum := |players| + 1;
      var startingConditions := StartingConditions(playerNum);
      var player := new Player(name, bikeColor, startingConditions);
      Enrol(player);
    }

    /** The push onto the players array at the end of addPlayer. */
    method Enrol(player: Player)
      requires Valid() && |players| < 2 && player.Valid() && player !in players
      modifies this`players
      ensures Valid()
      ensures players == old(players) + [player]
      ensures Snapshot(players) == old(Snapshot(players)) + [player.State()]
    {
      players := players + [player];
    }

    /** The loop body of startGame: player i gets the chosen speed. */
    method SetSpeed(i: nat, speed: int)
      requires Valid() && i < |players|
      requires speed == NormalSpeed || speed == LudicrousSpeed
      modifies players[i]
      ensures Valid()
      ensures forall k :: 0 <= k < |players| ==>
        players[k].State() == if k == i then old(players[k].State()).(speed := speed) else old(players[k].State())
      ensures forall k :: 0 <= k < |players| ==> players[k].lastDirection == old(players[k].lastDirection)
    {
      var player := players[i];
      assert BikeInv(player.State());
      player.movementSpeed := speed;
      assert BikeInv(player.State());
      assert forall k :: 0 <= k < |players| && k != i ==> players[k] != player;
    }

    /** Give every player the chosen speed and start running. */
    method StartGame(normalSpeed: bool)
      requires Valid() && |players| == 2
      modifies this`isRunning, players
      ensures Valid() && isRunning
      ensures players == old(players)
      ensures lastTimestamp == old(lastTimestamp) && deathTimestamp == old(deathTimestamp)
      ensures Snapshot(players) == WithSpeed(old(Snapshot(players)), SpeedFor(normalSpeed))
      ensures forall k :: 0 <= k < |players| ==> players[k].lastDirection == old(players[k].lastDirection)
    {
      var speed := SpeedFor(normalSpeed);
      ghost var snap := Snapshot(players);
      for i := 0 to |players|
        invariant Valid()
        invariant forall k :: 0 <= k < i ==> players[k].State() == snap[k].(speed := speed)
        invariant forall k :: 0 <= k < |players| ==> players[k].lastDirection == old(players[k].lastDirection)
        invariant forall k :: i <= k < |players| ==> players[k].State() == snap[k]
        modifies players
      {
        SetSpeed(i, speed);
      }
      isRunning := true;
    }

    /** Start a stopped game, or stop a running one and clear its timestamps. */
    method ToggleGameRunning(normalSpeed: bool)
      requires Valid()
      requires !isRunning ==> |players| == 2
      modifies this`isRunning, this`lastTimestamp, this`deathTimestamp, players
      ensures Valid()
      ensures players == old(players)
      ensures isRunning == !old(isRunning)
      ensures old(isRunning) ==>
        lastTimestamp == None && deathTimestamp == None && Snapshot(players) == old(Snapshot(players))
      ensures !old(isRunning) ==>
        && lastTimestamp == old(lastTimestamp) && deathTimestamp == old(deathTimestamp)
        && Snapshot(players) == WithSpeed(old(Snapshot(players)), SpeedFor(normalSpeed))
      ensures forall k :: 0 <= k < |players| ==> players[k].lastDirection == old(players[k].lastDirection)
    {
      isRunning := !isRunning;
      if isRunning {
        StartGame(normalSpeed);
      } else {
        lastTimestamp := None;
        deathTimestamp := None;
      }
    }

    /** Stop the round, clear both timestamps and report the outcome. */
    method EndGame() returns (outcome: Outcome)
      requires Valid() && |players| == 2
      modifies this`isRunning, this`lastTimestamp, this`deathTimestamp
      ensures Valid()
      ensures players == old(players) && !isRunning
      ensures Snapshot(players) == old(Snapshot(players))
      ensures lastTimestamp == None && deathTimestamp == None
      ensures outcome == Winner(players[0].isAlive, players[1].isAlive)
    {
      isRunning := false;
      var player1Victory := players[0].isAlive && !players[1].isAlive;
      var player2Victory := !players[0].isAlive && players[1].isAlive;
      if player1Victory {
        outcome := Player1Wins;
      } else if player2Victory {
        outcome := Player2Wins;
      } else {
        outcome := Tie;
      }
      lastTimestamp := None;
      deathTimestamp := None;
    }

    /** The loop body of playAgain: player i respawns. */
    method RespawnPlayer(i: nat)
      requires Valid() && i < |players|
      modifies players[i]
      ensures Valid()
      ensures forall k :: 0 <= k < |players| ==>
        players[k].State() == if k == i then Bikes.Respawn(old(players[k].State())) else old(players[k].State())
      ensures forall k :: 0 <= k < |players| ==> players[k].lastDirection == old(players[k].lastDirection)
    {
      var player := players[i];
      assert BikeInv(player.State());
      player.Respawn();
      assert forall k :: 0 <= k < |players| && k != i ==> players[k] != player;
    }

    /** Respawn both players with fresh trails and start again. */
    method PlayAgain(normalSpeed: bool)
      requires Valid() && |players| == 2
      modifies this`isRunning, players
      ensures Valid() && isRunning
      ensures players == old(players)
      ensures lastTimestamp == old(lastTimestamp) && deathTimestamp == old(deathTimestamp)
      ensures Snapshot(players) == WithSpeed(RespawnAll(old(Snapshot(players))), SpeedFor(normalSpeed))
      ensures forall k :: 0 <= k < |players| ==> players[k].lastDirection == old(players[k].lastDirection)
    {
      ghost var snap := Snapshot(players);
      for i := 0 to |players|
        invariant Valid()
        invariant forall k :: 0 <= k < i ==> players[k].State() == Bikes.Respawn(snap[k])
        invariant forall k :: 0 <= k < |players| ==> players[k].lastDirection == old(players[k].lastDirection)
        invariant forall k :: i <= k < |players| ==> players[k].State() == snap[k]
        modifies players
      {
        RespawnPlayer(i);
      }
      assert Snapshot(players) == RespawnAll(snap);
      StartGame(normalSpeed);
    }

    /** Back to the lobby: no players, stopped, no timestamps. */
    method ResetGame()
      modifies this
      ensures Valid()
      ensures !isRunning && players == [] && lastTimestamp == None && deathTimestamp == None
    {
      isRunning := false;
      players := [];
      lastTimestamp := None;
      deathTimestamp := None;
    }

    /** Both players record their heading before a key is handled. */
    method RecordHeadings()
      requires Valid() && isRunning
      modifies players[0], players[1]
      ensures Valid()
      ensures Snapshot(players) == old(Snapshot(players))
      ensures forall k :: 0 <= k < 2 ==> players[k].lastDirection == Some(players[k].direction)
    {
      var player1, player2 := players[0], players[1];
      player1.lastDirection := Some(player1.direction);
      player2.lastDirection := Some(player2.direction);
    }

    /**
     * Player i is asked to head `d`: it turns when alive and `d` is not the
     * reverse of the heading it recorded.
     */
    method SteerPlayer(i: nat, d: Direction)
      requires Valid() && isRunning && i < 2
      requires players[i].lastDirection == Some(players[i].direction)
      modifies players[i]
      ensures Valid()
      ensures Snapshot(players) ==
        if CanTurn(old(players[i].State()), d) then old(Snapshot(players))[i := Turn(old(players[i].State()), d)]
        else old(Snapshot(players))
      ensures forall k :: 0 <= k < 2 ==> players[k].lastDirection == old(players[k].lastDirection)
    {
      ghost var snap := Snapshot(players);
      var player := players[i];
      if player.lastDirection != Some(Opposite(d)) && player.isAlive {
        player.UpdatePlayerDirection(d);
        assert CanTurn(snap[i], d);
      } else {
        assert !CanTurn(snap[i], d);
      }
      assert forall k :: 0 <= k < |players| && k != i ==> players[k] != player;
      assert forall k :: 0 <= k < |players| && k != i ==> players[k].State() == snap[k];
    }

    /**
     * A key press while running: W/D/S/A steer player 1 and the arrow keys
     * player 2, unless the player is dead or the key asks for the reverse
     * of its heading. Both players' lastDirection record their heading
     * before the key.
     */
    method UpdateAllPlayersDirection(key: string)
      requires Valid()
      modifies players
      ensures Valid()
      ensures Snapshot(players) == Steer(old(Snapshot(players)), isRunning, key)
      ensures isRunning ==> forall k :: 0 <= k < 2 ==> players[k].lastDirection == Some(old(players[k].direction))
      ensures !isRunning ==> forall k :: 0 <= k < |players| ==> players[k].lastDirection == old(players[k].lastDirection)
    {
      if isRunning {
        RecordHeadings();
        match KeyBinding(key) {
          case None =>
          case Some(binding) =>
            SteerPlayer(binding.player, binding.direction);
        }
      }
    }

    /** The loop body of one tick: player i moves if alive. */
    method MoveIfAlive(i: nat)
      requires Valid() && i < |players|
      modifies players[i]
      ensures Valid()
      ensures Snapshot(players) == old(Snapshot(players))[i := MaybeMove(old(Snapshot(players)), i)]
      ensures forall k :: 0 <= k < |players| ==> players[k].lastDirection == old(players[k].lastDirection)
    {
      ghost var before := Snapshot(players);
      var player := players[i];
      if player.isAlive {
        player.Move(players);
      }
      assert forall k :: 0 <= k < |players| && k != i ==> players[k] != player;
    }

    /**
     * One logical tick: every living player moves, in array order, each
     * seeing the moves already made in this tick.
     */
    method MovePlayers()
      requires Valid()
      modifies players
      ensures Valid()
      ensures Snapshot(players) == Tick(old(Snapshot(players)))
      ensures forall k :: 0 <= k < |players| ==> players[k].lastDirection == old(players[k].lastDirection)
    {
      ghost var start := Snapshot(players);
      var i := 0;
      while i < |players|
        invariant 0 <= i <= |players|
        invariant Valid()
        invariant TickFrom(Snapshot(players), i) == Tick(start)
        invariant forall k :: 0 <= k < |players| ==> players[k].lastDirection == old(players[k].lastDirection)
      {
        MoveIfAlive(i);
        i := i + 1;
      }
    }

    /**
     * A callback that is due for a tick: record its time, move the
     * players, and record the time as the death timestamp if this is the
     * first tick to find a player dead.
     */
    method Keyframe(timestamp: real)
      requires Valid() && isRunning
      modifies this`lastTimestamp, this`deathTimestamp, players
      ensures Valid() && isRunning && players == old(players)
      ensures Snapshot(players) == Tick(old(Snapshot(players)))
      ensures lastTimestamp == Some(timestamp)
      ensures deathTimestamp ==
        if (!players[0].isAlive || !players[1].isAlive) && old(deathTimestamp).None? then Some(timestamp)
        else old(deathTimestamp)
      ensures forall k :: 0 <= k < |players| ==> players[k].lastDirection == old(players[k].lastDirection)
    {
      ghost var start := Snapshot(players);
      lastTimestamp := Some(timestamp);
      assert Snapshot(players) == start;
      MovePlayers();
      ghost var bikes := Snapshot(players);
      assert bikes == Tick(start) && Valid();
      RecordDeath(timestamp);
      assert Snapshot(players) == bikes;
    }

    /** The first tick that finds a player dead records its time. */
    method RecordDeath(timestamp: real)
      requires |players| == 2
      modifies this`deathTimestamp
      ensures deathTimestamp ==
        if (!players[0].isAlive || !players[1].isAlive) && old(deathTimestamp).None? then Some(timestamp)
        else old(deathTimestamp)
    {
      var playerHasDied := !players[0].isAlive || !players[1].isAlive;
      if playerHasDied && deathTimestamp.None? {
        deathTimestamp := Some(timestamp);
      }
    }

    /**
     * The part of a running callback before the end-of-round check: an
     * unset last timestamp takes the callback's time, and a keyframe runs
     * when more than one keyframe duration has passed since it.
     */
    method KeyframeIfDue(timestamp: real) returns (ticked: bool)
      requires Valid() && isRunning
      modifies this`lastTimestamp, this`deathTimestamp, players
      ensures Valid() && isRunning && players == old(players)
      ensures ticked == (timestamp - KeyframeDuration > old(lastTimestamp).GetOr(timestamp))
      ensures Snapshot(players) == if ticked then Tick(old(Snapshot(players))) else old(Snapshot(players))
      ensures lastTimestamp == Some(if ticked then timestamp else old(lastTimestamp).GetOr(timestamp))
      ensures deathTimestamp ==
        if ticked && (!players[0].isAlive || !players[1].isAlive) && old(deathTimestamp).None? then Some(timestamp)
        else old(deathTimestamp)
      ensures forall k :: 0 <= k < |players| ==> players[k].lastDirection == old(players[k].lastDirection)
    {
      if lastTimestamp.None? {
        lastTimestamp := Some(timestamp);
      }
      ticked := timestamp - KeyframeDuration > lastTimestamp.value;
      if ticked {
        Keyframe(timestamp);
      }
    }

    /**
     * The host's frame callback at `timestamp`. Returns the outcome when
     * this callback ends the round.
     */
    method DrawLoop(timestamp: real) returns (outcome: Option<Outcome>)
      requires Valid()
      modifies this`isRunning, this`lastTimestamp, this`deathTimestamp, players
      ensures Valid()
      ensures players == old(players)
      ensures (RoundState(), outcome) == Frame(old(RoundState()), timestamp)
      ensures forall k :: 0 <= k < |players| ==> players[k].lastDirection == old(players[k].lastDirection)
    {
      ghost var r0 := RoundState();
      if !isRunning {
        return None;
      }
      var updateCanvasKeyframe := KeyframeIfDue(timestamp);
      ghost var bikes := Snapshot(players);
      var playerDeathKeyframe := deathTimestamp.Some? && timestamp - DeathCheckDuration > deathTimestamp.value;
      if playerDeathKeyframe {
        var o := EndGame();
        assert RoundState() == Round(false, bikes, None, None);
        return Some(o);
      }
      assert RoundState() == Round(true, bikes, lastTimestamp, deathTimestamp);
      return None;
    }
  }
}
