/**
 * Value-level description of the round driven by the `game` object of
 * scripts/script.js: the per-tick sequence of moves, the throttled frame
 * driver with its first-death grace window, the outcome, and the keyboard
 * steering guard. The class Games.Game is proved against these functions.
 */
module Rounds {
  import opened Wrappers
  import opened Geometry
  import opened Bikes

  const KeyframeDuration: real := 1000.0 / 60.0
  const DeathCheckDuration: real := 100.0

  // ---------------------------------------------------------------------
  // One logical tick: living players move in array order, each tested
  // against the obstacles as they stand after the earlier players' moves.

  function MaybeMove(bs: seq<Bike>, i: nat): Bike
    requires i < |bs| && AllStarted(bs)
  {
    if bs[i].alive then MoveBike(bs[i], ObstaclesOf(bs)) else bs[i]
  }

  /** Moves players i, i+1, ... in turn. */
  function TickFrom(bs: seq<Bike>, i: nat): (r: seq<Bike>)
    requires i <= |bs| && AllStarted(bs)
    ensures |r| == |bs| && AllStarted(r)
    ensures forall k :: 0 <= k < i ==> r[k] == bs[k]
    decreases |bs| - i
  {
    if i == |bs| then bs
    else TickFrom(bs[i := MaybeMove(bs, i)], i + 1)
  }

  function Tick(bs: seq<Bike>): (r: seq<Bike>)
    requires AllStarted(bs)
    ensures |r| == |bs| && AllStarted(r)
  {
    TickFrom(bs, 0)
  }

  /** `c` differs from `b` at most in position and alive flag, and is alive only if `b` is. */
  ghost predicate MovedOnly(b: Bike, c: Bike) {
    c == b.(x := c.x, y := c.y, alive := c.alive) && (c.alive ==> b.alive)
  }

  /** A tick keeps every bike's invariant. */
  lemma {:induction false} TickFromPreserves(bs: seq<Bike>, i: nat)
    requires i <= |bs| && AllInv(bs)
    ensures AllInv(TickFrom(bs, i))
    decreases |bs| - i
  {
    if i < |bs| {
      if bs[i].alive { MovePreservesInv(bs[i], ObstaclesOf(bs)); }
      var next := bs[i := MaybeMove(bs, i)];
      assert AllInv(next);
      TickFromPreserves(next, i + 1);
    }
  }

  /**
   * A tick changes each bike only by a move (position and alive flag) and
   * never brings a dead bike back.
   */
  lemma {:induction false} TickFromMovesOnly(bs: seq<Bike>, i: nat)
    requires i <= |bs| && AllStarted(bs)
    ensures forall k :: 0 <= k < |bs| ==> MovedOnly(bs[k], TickFrom(bs, i)[k])
    decreases |bs| - i
  {
    if i < |bs| {
      var m := MaybeMove(bs, i);
      assert MovedOnly(bs[i], m);
      var next := bs[i := m];
      TickFromMovesOnly(next, i + 1);
      var r := TickFrom(next, i + 1);
      assert r == TickFrom(bs, i);
      assert forall k :: 0 <= k < |bs| ==> MovedOnly(next[k], r[k]);
      assert forall k :: 0 <= k < |bs| && k != i ==> next[k] == bs[k];
    }
  }

  lemma TickPreserves(bs: seq<Bike>)
    requires AllInv(bs)
    ensures AllInv(Tick(bs))
    ensures forall k :: 0 <= k < |bs| ==> MovedOnly(bs[k], Tick(bs)[k])
  {
    TickFromPreserves(bs, 0);
    TickFromMovesOnly(bs, 0);
  }

  /**
   * With two players, player 2 is tested against the obstacles as they
   * stand after player 1's move, not before it.
   */
  lemma TwoPlayerTickOrder(bs: seq<Bike>)
    requires |bs| == 2 && AllStarted(bs)
    ensures var first := bs[0 := MaybeMove(bs, 0)];
      Tick(bs) == first[1 := MaybeMove(first, 1)]
  {
    var first := bs[0 := MaybeMove(bs, 0)];
    var second := first[1 := MaybeMove(first, 1)];
    assert Tick(bs) == TickFrom(first, 1);
    assert TickFrom(first, 1) == TickFrom(second, 2) == second;
  }

  /**
   * Order matters: player 1, heading right along y = 225, has just reached
   * x = 99; player 2 heads up at x = 100. Player 1's move to x = 102 puts
   * x = 100 strictly inside its in-flight stretch, so player 2, tested
   * after it, dies; with the two processed the other way round player 2
   * survives.
   */
  lemma TickOrderMatters()
    ensures var b1, b2 := Rider(), Climber();
      && Tick([b1, b2])[0].alive && Tick([b1, b2])[0].x == 102
      && !Tick([b1, b2])[1].alive
      && Tick([b2, b1])[0].alive && Tick([b2, b1])[0].y == 297
  {
    RiderFirst();
    ClimberFirst();
  }

  /** Player 1 of the example: heading right along y = 225, at x = 99. */
  function Rider(): Bike {
    Bike(99, 225, Right, true, NormalSpeed, [Point(0, 225)], [], [], Spawn(0, 225, Right))
  }

  /** Player 2 of the example: heading up at x = 100, at y = 300. */
  function Climber(): Bike {
    Bike(100, 300, Up, true, NormalSpeed, [Point(100, 400)], [], [], Spawn(1200, 225, Left))
  }

  lemma RiderFirst()
    ensures Tick([Rider(), Climber()]) == [Rider().(x := 102), Climber().(alive := false)]
  {
    var b1, b2 := Rider(), Climber();
    var b1' := b1.(x := 102);
    var obs := ObstaclesOf([b1, b2]);
    assert ObstaclesOf([b1, b2][..1]) == [Horizontal(225, 0, 99)];
    assert obs == [Horizontal(225, 0, 99), Vertical(100, 400, 300)];
    assert !Hits(Right, b1.Pos(), Point(102, 225), obs[0]) && !Hits(Right, b1.Pos(), Point(102, 225), obs[1]);
    assert MaybeMove([b1, b2], 0) == b1';
    var mid := [b1', b2];
    var obs' := ObstaclesOf(mid);
    assert ObstaclesOf(mid[..1]) == [Horizontal(225, 0, 102)];
    assert obs'[0] == Horizontal(225, 0, 102);
    assert Hits(Up, b2.Pos(), Point(100, 297), obs'[0]);
    assert MaybeMove(mid, 1) == b2.(alive := false);
    assert [b1, b2][0 := MaybeMove([b1, b2], 0)] == mid;
    assert Tick([b1, b2]) == TickFrom(mid, 1);
    assert mid[1 := MaybeMove(mid, 1)] == [b1', b2.(alive := false)];
    assert TickFrom(mid, 1) == TickFrom([b1', b2.(alive := false)], 2);
  }

  lemma ClimberFirst()
    ensures Tick([Climber(), Rider()])[0] == Climber().(y := 297)
  {
    var b1, b2 := Rider(), Climber();
    var b2' := b2.(y := 297);
    var obsR := ObstaclesOf([b2, b1]);
    assert ObstaclesOf([b2, b1][..1]) == [Vertical(100, 400, 300)];
    assert obsR == [Vertical(100, 400, 300), Horizontal(225, 0, 99)];
    assert !Hits(Up, b2.Pos(), Point(100, 297), obsR[0]) && !Hits(Up, b2.Pos(), Point(100, 297), obsR[1]);
    assert MaybeMove([b2, b1], 0) == b2';
    assert [b2, b1][0 := MaybeMove([b2, b1], 0)] == [b2', b1];
    var last := [b2', b1][1 := MaybeMove([b2', b1], 1)];
    assert last[0] == b2';
    assert Tick([b2, b1]) == TickFrom([b2', b1], 1) == TickFrom(last, 2) == last;
  }

  // ---------------------------------------------------------------------
  // Outcome.

  datatype Outcome = Player1Wins | Player2Wins | Tie

  /** The victory expressions of endGame. */
  function Winner(alive1: bool, alive2: bool): (o: Outcome)
    ensures o == Tie <==> alive1 == alive2
  {
    if alive1 && !alive2 then Player1Wins
    else if !alive1 && alive2 then Player2Wins
    else Tie
  }

  function Swapped(o: Outcome): Outcome {
    match o
    case Player1Wins => Player2Wins
    case Player2Wins => Player1Wins
    case Tie => Tie
  }

  /**
   * A player wins exactly when it is the only one alive; anything else is a
   * tie, and the rule treats the two players alike.
   */
  lemma WinnerFair(alive1: bool, alive2: bool)
    ensures Winner(alive1, alive2) == Player1Wins <==> alive1 && !alive2
    ensures Winner(alive1, alive2) == Player2Wins <==> alive2 && !alive1
    ensures Winner(alive1, alive2) == Tie <==> alive1 == alive2
    ensures Winner(alive2, alive1) == Swapped(Winner(alive1, alive2))
  {
  }

  // ---------------------------------------------------------------------
  // The frame driver.

  /** The simulation part of the `game` object. */
  datatype Round = Round(running: bool, bikes: seq<Bike>, last: Option<real>, death: Option<real>)

  ghost predicate FrameReady(r: Round) {
    (r.running ==> |r.bikes| == 2) && AllStarted(r.bikes)
  }

  /** What the game keeps true between host callbacks. */
  ghost predicate RoundInv(r: Round) {
    && (r.running ==> |r.bikes| == 2)
    && (!r.running ==> r.last == None && r.death == None)
    && AllInv(r.bikes)
  }

  /** A recorded death timestamp means some player is dead. */
  ghost predicate DeathWitnessed(r: Round) {
    r.death.Some? ==> exists k :: 0 <= k < |r.bikes| && !r.bikes[k].alive
  }

  /**
   * One host frame callback at time t. When running, an unset
   * last-timestamp is first set to t; the players move only when more than
   * one keyframe has passed since it; the first tick that finds a dead
   * player records t as the death timestamp; once more than the death-check
   * duration has passed since that timestamp the round ends, the driver
   * stops and clears both timestamps, and the outcome is reported.
   */
  function Frame(r: Round, t: real): (res: (Round, Option<Outcome>))
    requires FrameReady(r)
    ensures |res.0.bikes| == |r.bikes|
    ensures res.1.Some? <==> r.running && !res.0.running
    ensures res.0.bikes == r.bikes || res.0.bikes == Tick(r.bikes)
  {
    if !r.running then (r, None)
    else
      var last0 := r.last.GetOr(t);
      var advance := t - KeyframeDuration > last0;
      var bikes := if advance then Tick(r.bikes) else r.bikes;
      var last := if advance then t else last0;
      var someoneDead := !bikes[0].alive || !bikes[1].alive;
      var death := if advance && someoneDead && r.death.None? then Some(t) else r.death;
      if death.Some? && t - DeathCheckDuration > death.value then
        (Round(false, bikes, None, None), Some(Winner(bikes[0].alive, bikes[1].alive)))
      else
        (Round(true, bikes, Some(last), death), None)
  }

  /** A stopped driver ignores the callback. */
  lemma FrameWhenStopped(r: Round, t: real)
    requires FrameReady(r) && !r.running
    ensures Frame(r, t) == (r, None)
  {
  }

  /**
   * Players move only when more than one keyframe has passed since the
   * last processed tick (the first callback of a round only records its
   * time); an early callback leaves the players as they were.
   */
  lemma FrameThrottle(r: Round, t: real)
    requires FrameReady(r) && r.running
    ensures var advance := r.last.Some? && t - KeyframeDuration > r.last.value;
      && (advance ==> Frame(r, t).0.bikes == Tick(r.bikes))
      && (!advance ==> Frame(r, t).0.bikes == r.bikes)
      && (Frame(r, t).1.None? ==> Frame(r, t).0.last == Some(if advance then t else r.last.GetOr(t)))
  {
  }

  /**
   * The death timestamp is written once: an existing one is kept until the
   * round ends, and a new one is the time of a tick that left a player dead.
   * Conversely, a due tick that leaves a player dead while none is recorded
   * records its time, and a callback that starts without a recorded death
   * never ends the round.
   */
  lemma DeathTimestampFirstWrite(r: Round, t: real)
    requires FrameReady(r) && r.running
    ensures var (r', o) := Frame(r, t);
      && (r.death.Some? && o.None? ==> r'.death == r.death)
      && (r.death.None? && r'.death.Some? ==>
            r'.death == Some(t) && (!r'.bikes[0].alive || !r'.bikes[1].alive))
      && ((r.death.None? && r.last.Some? && t - KeyframeDuration > r.last.value
           && (!r'.bikes[0].alive || !r'.bikes[1].alive)) ==> r'.death == Some(t) && o.None?)
      && (r.death.None? ==> o.None?)
  {
  }

  /**
   * Grace window: a round with a recorded death d ends exactly at the first
   * callback with t - 100 > d; ending stops the driver, clears both
   * timestamps and scores the players as they stand.
   */
  lemma GraceWindow(r: Round, t: real, d: real)
    requires FrameReady(r) && r.running && r.death == Some(d)
    ensures Frame(r, t).1.Some? <==> t - DeathCheckDuration > d
    ensures var (r', o) := Frame(r, t);
      o.Some? ==> !r'.running && r'.last == None && r'.death == None
                  && o.value == Winner(r'.bikes[0].alive, r'.bikes[1].alive)
  {
  }

  /** A frame keeps the round invariant. */
  lemma FrameKeepsRoundInv(r: Round, t: real)
    requires RoundInv(r)
    ensures FrameReady(r)
    ensures RoundInv(Frame(r, t).0)
  {
    if r.running {
      var advance := t - KeyframeDuration > r.last.GetOr(t);
      var bikes := if advance then Tick(r.bikes) else r.bikes;
      if advance {
        TickPreserves(r.bikes);
      }
      assert AllInv(bikes) && |bikes| == 2;
      assert Frame(r, t).0.bikes == bikes;
    }
  }

  /**
   * A recorded death timestamp always belongs to a dead player; so a round
   * never ends with both players alive: a tie means both are dead.
   */
  lemma FrameKeepsDeathWitness(r: Round, t: real)
    requires FrameReady(r) && DeathWitnessed(r)
    ensures DeathWitnessed(Frame(r, t).0)
    ensures var (r', o) := Frame(r, t);
      o == Some(Tie) ==> !r'.bikes[0].alive && !r'.bikes[1].alive
  {
    if r.running {
      var advance := t - KeyframeDuration > r.last.GetOr(t);
      var bikes := if advance then Tick(r.bikes) else r.bikes;
      if advance {
        TickFromMovesOnly(r.bikes, 0);
        if r.death.Some? {
          var k :| 0 <= k < |r.bikes| && !r.bikes[k].alive;
          assert !bikes[k].alive;
        }
      }
      var someoneDead := !bikes[0].alive || !bikes[1].alive;
      var death := if advance && someoneDead && r.death.None? then Some(t) else r.death;
      assert death.Some? ==> someoneDead;
      var (r', o) := Frame(r, t);
      assert r'.bikes == bikes;
      assert o.Some? ==> death.Some? && o.value == Winner(bikes[0].alive, bikes[1].alive);
    }
  }

  // ---------------------------------------------------------------------
  // Keyboard steering.

  datatype Binding = Binding(player: nat, direction: Direction)

  /** W/D/S/A steer player 1, the arrow keys player 2; other keys nothing. */
  function KeyBinding(key: string): (kb: Option<Binding>)
    ensures kb.Some? ==> kb.value.player < 2
  {
    match key
    case "w" => Some(Binding(0, Up))
    case "d" => Some(Binding(0, Right))
    case "s" => Some(Binding(0, Down))
    case "a" => Some(Binding(0, Left))
    case "ArrowUp" => Some(Binding(1, Up))
    case "ArrowRight" => Some(Binding(1, Right))
    case "ArrowDown" => Some(Binding(1, Down))
    case "ArrowLeft" => Some(Binding(1, Left))
    case _ => None
  }

  /** The key that requests `b`. */
  function KeyFor(b: Binding): string
    requires b.player < 2
  {
    match b.direction
    case Up => if b.player == 0 then "w" else "ArrowUp"
    case Right => if b.player == 0 then "d" else "ArrowRight"
    case Down => if b.player == 0 then "s" else "ArrowDown"
    case Left => if b.player == 0 then "a" else "ArrowLeft"
  }

  /**
   * Every request of either player has exactly one key: the binding table
   * and KeyFor are inverse.
   */
  lemma KeyBindingRoundTrip(b: Binding, key: string)
    ensures b.player < 2 ==> KeyBinding(KeyFor(b)) == Some(b)
    ensures KeyBinding(key) == Some(b) ==> b.player < 2 && KeyFor(b) == key
  {
  }

  /** The turn guard: alive, and not a reversal of the current heading. */
  predicate CanTurn(b: Bike, d: Direction) {
    b.direction != Opposite(d) && b.alive
  }

  /** updateAllPlayersDirection for one key press. */
  function Steer(bs: seq<Bike>, running: bool, key: string): (r: seq<Bike>)
    requires running ==> |bs| >= 2
    ensures |r| == |bs|
    ensures forall k :: 0 <= k < |bs| ==> r[k] == bs[k] || r[k] == Turn(bs[k], r[k].direction)
  {
    if !running then bs
    else match KeyBinding(key)
      case None => bs
      case Some(b) =>
        if CanTurn(bs[b.player], b.direction) then bs[b.player := Turn(bs[b.player], b.direction)] else bs
  }

  /** No key press ever turns a player onto the reverse of its heading. */
  lemma SteerNeverReverses(bs: seq<Bike>, running: bool, key: string, i: nat)
    requires running ==> |bs| >= 2
    requires i < |bs|
    ensures Steer(bs, running, key)[i].direction != Opposite(bs[i].direction)
  {
    OppositeInvolution(bs[i].direction);
    if running && KeyBinding(key).Some? {
      OppositeInvolution(KeyBinding(key).value.direction);
    }
  }

  /**
   * A key press changes player i only when the game is running, the key
   * belongs to player i, the player is alive and the request is not a
   * reversal; then the player takes the requested heading and its trail
   * gains the current position. Otherwise player i is untouched.
   */
  lemma SteerGuard(bs: seq<Bike>, running: bool, key: string, i: nat)
    requires running ==> |bs| >= 2
    requires i < |bs|
    ensures var r := Steer(bs, running, key);
      var accepted := running && KeyBinding(key).Some? && KeyBinding(key).value.player == i
                      && bs[i].alive && KeyBinding(key).value.direction != Opposite(bs[i].direction);
      && (accepted ==> r[i].direction == KeyBinding(key).value.direction
                       && r[i].points == bs[i].points + [bs[i].Pos()]
                       && r[i].Pos() == bs[i].Pos())
      && (!accepted ==> r[i] == bs[i])
  {
  }

  /**
   * Pressing the key of the heading a player already has is accepted: the
   * heading stays and a line point is still saved.
   */
  lemma RepeatedKeySavesPoint(bs: seq<Bike>, i: nat)
    requires |bs| >= 2 && i < 2 && bs[i].alive
    ensures var r := Steer(bs, true, KeyFor(Binding(i, bs[i].direction)));
      r[i].direction == bs[i].direction && |r[i].points| == |bs[i].points| + 1
  {
    KeyBindingRoundTrip(Binding(i, bs[i].direction), "");
    OppositeInvolution(bs[i].direction);
  }

  /**
   * The guard compares a request with the current heading only, so two
   * key presses between ticks can reverse a bike: heading right, "w" then
   * "a" leaves player 1 heading left.
   */
  lemma TwoKeysCanReverse(bs: seq<Bike>)
    requires |bs| >= 2 && bs[0].alive && bs[0].direction == Right
    ensures Steer(Steer(bs, true, "w"), true, "a")[0].direction == Opposite(bs[0].direction)
  {
  }

  /** Steering keeps every bike's invariant. */
  lemma SteerPreserves(bs: seq<Bike>, running: bool, key: string)
    requires running ==> |bs| >= 2
    requires forall k :: 0 <= k < |bs| ==> BikeInv(bs[k])
    ensures forall k :: 0 <= k < |bs| ==> BikeInv(Steer(bs, running, key)[k])
  {
    if running && KeyBinding(key).Some? {
      var b := KeyBinding(key).value;
      TurnGrowsTrail(bs[b.player], b.direction);
    }
  }

  // ---------------------------------------------------------------------
  // Round set-up.

  function SpeedFor(normalSpeed: bool): int {
    if normalSpeed then NormalSpeed else LudicrousSpeed
  }

  /** startGame: every player gets the chosen speed. */
  function WithSpeed(bs: seq<Bike>, speed: int): (r: seq<Bike>)
    ensures |r| == |bs|
    ensures forall k :: 0 <= k < |bs| ==> r[k] == bs[k].(speed := speed)
  {
    seq(|bs|, k requires 0 <= k < |bs| => bs[k].(speed := speed))
  }

  /** playAgain: every player respawns with a fresh trail. */
  function RespawnAll(bs: seq<Bike>): (r: seq<Bike>)
    ensures |r| == |bs|
    ensures forall k :: 0 <= k < |bs| ==> r[k] == Respawn(bs[k])
  {
    seq(|bs|, k requires 0 <= k < |bs| => Respawn(bs[k]))
  }

  /**
   * The speed choice touches nothing but the speed: at 3 or 8 every bike
   * invariant survives, and the obstacle list is unchanged.
   */
  lemma SpeedKeepsTrails(bs: seq<Bike>, speed: int)
    requires speed == NormalSpeed || speed == LudicrousSpeed
    ensures AllInv(bs) ==> AllInv(WithSpeed(bs, speed))
    ensures AllStarted(bs) ==> AllStarted(WithSpeed(bs, speed)) && ObstaclesOf(WithSpeed(bs, speed)) == ObstaclesOf(bs)
  {
    if AllStarted(bs) {
      ObstaclesCongruent(WithSpeed(bs, speed), bs);
    }
  }

  /**
   * A replay gives every bike a fresh trail at its own spawn, keeping its
   * spawn and speed; with valid speeds every bike invariant holds.
   */
  lemma RespawnAllFresh(bs: seq<Bike>)
    ensures forall k :: 0 <= k < |bs| ==>
      var r := RespawnAll(bs)[k];
      && r.alive && r.Pos() == Point(bs[k].start.x, bs[k].start.y) && r.direction == bs[k].start.direction
      && r.points == [Point(bs[k].start.x, bs[k].start.y)] && r.verticals == [] && r.horizontals == []
      && r.start == bs[k].start && r.speed == bs[k].speed
    ensures (forall k :: 0 <= k < |bs| ==> bs[k].speed == NormalSpeed || bs[k].speed == LudicrousSpeed)
      ==> AllInv(RespawnAll(bs))
  {
    forall k | 0 <= k < |bs| {
      FreshTrail(bs[k].start, bs[k]);
    }
  }
}
