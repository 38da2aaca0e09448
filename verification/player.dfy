/**
 * The Player class of scripts/script.js: a bike whose position, heading,
 * alive flag and trail lists are updated in place. Every method is proved
 * against the value-level description in module Bikes through State().
 * Images, audio and the score-card element are not modelled.
 */
module Players {
  import opened Wrappers
  import opened Geometry
  import opened Bikes

  class Player {
    const name: string
    const bikeColor: string
    const startingConditions: Spawn
    var isAlive: bool
    var movementSpeed: int
    var x: int
    var y: int
    var direction: Direction
    var lastDirection: Option<Direction>
    var linePoints: seq<Point>
    var verticalLines: seq<Segment>
    var horizontalLines: seq<Segment>

    /** The player as a value. */
    function State(): Bike
      reads this
    {
      Bike(x, y, direction, isAlive, movementSpeed, linePoints, verticalLines, horizontalLines, startingConditions)
    }

    /**
     * The bike invariant of the player's state. It is stated through a
     * quantifier so that the invariant is unfolded only where a proof
     * mentions BikeInv of the state, not wherever a player appears.
     */
    ghost predicate Valid()
      reads this
    {
      |linePoints| > 0 && forall b :: b == State() ==> BikeInv(b)
    }

    constructor (name: string, bikeColor: string, startingConditions: Spawn)
      ensures this.name == name && this.bikeColor == bikeColor
      ensures State() == NewBike(startingConditions)
      ensures lastDirection == None
      ensures Valid()
    {
      this.name := name;
      this.bikeColor := bikeColor;
      this.startingConditions := startingConditions;
      isAlive := true;
      movementSpeed := NormalSpeed;
      x := startingConditions.x;
      y := startingConditions.y;
      direction := startingConditions.direction;
      lastDirection := None;
      linePoints := [];
      horizontalLines := [];
      verticalLines := [];
      new;
      SaveLinePoint();
      FreshTrail(startingConditions, State());
    }

    /** Close the in-flight stretch into a segment and record the position. */
    method SaveLinePoint()
      modifies this`linePoints, this`verticalLines, this`horizontalLines
      ensures State() == Bikes.SaveLinePoint(old(State()))
    {
      if |linePoints| >= 1 {
        var latestLinePoint := linePoints[|linePoints| - 1];
        if latestLinePoint.x == x {
          verticalLines := verticalLines + [Vertical(latestLinePoint.x, latestLinePoint.y, y)];
        } else if latestLinePoint.y == y {
          horizontalLines := horizontalLines + [Horizontal(latestLinePoint.y, latestLinePoint.x, x)];
        }
      }
      linePoints := linePoints + [Point(x, y)];
    }

    method UpdatePlayerDirection(newDirection: Direction)
      requires Valid()
      modifies this`linePoints, this`verticalLines, this`horizontalLines, this`direction
      ensures State() == Turn(old(State()), newDirection)
      ensures Valid()
    {
      SaveLinePoint();
      direction := newDirection;
      TurnGrowsTrail(old(State()), newDirection);
    }

    method Die()
      modifies this`isAlive
      ensures !isAlive
    {
      isAlive := false;
    }

    method CheckBounds(newX: int, newY: int)
      modifies this`isAlive
      ensures isAlive == (old(isAlive) && !HitsBoundary(direction, Point(newX, newY)))
    {
      match direction {
        case Up => if newY - PlayerHeight < 0 { Die(); }
        case Right => if newX + PlayerHeight > ArenaWidth { Die(); }
        case Down => if newY + PlayerHeight > ArenaHeight { Die(); }
        case Left => if newX - PlayerHeight < 0 { Die(); }
      }
    }

    /** Every player's committed segments and in-flight stretch, in array order. */
    static method CollectObstacles(players: seq<Player>) returns (obstacleLines: seq<Segment>)
      requires forall k :: 0 <= k < |players| ==> |players[k].linePoints| > 0
      ensures obstacleLines == ObstaclesOf(Snapshot(players))
    {
      ghost var snap := Snapshot(players);
      obstacleLines := [];
      for i := 0 to |players|
        invariant obstacleLines == ObstaclesOf(snap[..i])
      {
        var player := players[i];
        ghost var before := obstacleLines;
        assert snap[i] == player.State();
        obstacleLines := obstacleLines + player.verticalLines;
        obstacleLines := obstacleLines + player.horizontalLines;
        var latestLinePoint := player.linePoints[|player.linePoints| - 1];
        if latestLinePoint.x == player.x {
          obstacleLines := obstacleLines + [Vertical(latestLinePoint.x, latestLinePoint.y, player.y)];
        } else if latestLinePoint.y == player.y {
          obstacleLines := obstacleLines + [Horizontal(latestLinePoint.y, latestLinePoint.x, player.x)];
        }
        assert obstacleLines == before + Contribution(snap[i]);
        assert snap[..i + 1][..i] == snap[..i];
        assert ObstaclesOf(snap[..i + 1]) == ObstaclesOf(snap[..i]) + Contribution(snap[i]);
      }
      assert snap[..|players|] == snap;
    }

    /** Test the candidate position against every obstacle, in two passes. */
    method CheckObstacles(players: seq<Player>, newX: int, newY: int)
      requires forall k :: 0 <= k < |players| ==> |players[k].linePoints| > 0
      modifies this`isAlive
      ensures isAlive == (old(isAlive) &&
        !HitsAny(direction, Point(x, y), Point(newX, newY), old(ObstaclesOf(Snapshot(players)))))
    {
      var obstacleLines := CollectObstacles(players);
      var cur, cand := Point(x, y), Point(newX, newY);
      for i := 0 to |obstacleLines|
        invariant isAlive == (old(isAlive) &&
          forall k :: 0 <= k < i ==> !PerpendicularHit(direction, cur, cand, obstacleLines[k]))
      {
        if PerpendicularHit(direction, cur, cand, obstacleLines[i]) {
          Die();
        }
      }
      for i := 0 to |obstacleLines|
        invariant isAlive == (old(isAlive) &&
          (forall k :: 0 <= k < |obstacleLines| ==> !PerpendicularHit(direction, cur, cand, obstacleLines[k])) &&
          forall k :: 0 <= k < i ==> !ParallelHit(direction, cur, cand, obstacleLines[k]))
      {
        if ParallelHit(direction, cur, cand, obstacleLines[i]) {
          Die();
        }
      }
    }

    /**
     * One tick for this player: compute the candidate position, run both
     * checks, and commit the travel-axis coordinate only if still alive.
     */
    method Move(players: seq<Player>)
      requires Valid()
      requires forall k :: 0 <= k < |players| ==> |players[k].linePoints| > 0
      modifies this`x, this`y, this`isAlive
      ensures State() == MoveBike(old(State()), old(ObstaclesOf(Snapshot(players))))
      ensures Valid()
    {
      ghost var before := Snapshot(players);
      ghost var b0 := State();
      ghost var obs := ObstaclesOf(before);
      var newX, newY := x, y;
      match direction {
        case Up => newY := newY - movementSpeed;
        case Right => newX := newX + movementSpeed;
        case Down => newY := newY + movementSpeed;
        case Left => newX := newX - movementSpeed;
      }
      assert Point(newX, newY) == Advance(b0.direction, b0.Pos(), b0.speed);
      CheckBounds(newX, newY);
      ObstaclesCongruent(before, Snapshot(players));
      CheckObstacles(players, newX, newY);
      assert isAlive == (b0.alive && !HitsBoundary(b0.direction, Point(newX, newY))
        && !HitsAny(b0.direction, b0.Pos(), Point(newX, newY), obs));
      if isAlive {
        match direction {
          case Up => y := newY;
          case Right => x := newX;
          case Down => y := newY;
          case Left => x := newX;
        }
      }
      assert State() == MoveBike(b0, obs);
      MovePreservesInv(b0, obs);
    }

    /** playAgain, for this player: back to the spawn with a fresh trail. */
    method Respawn()
      modifies this`isAlive, this`x, this`y, this`direction, this`linePoints, this`verticalLines, this`horizontalLines
      ensures State() == Bikes.Respawn(old(State()))
      ensures (old(movementSpeed) == NormalSpeed || old(movementSpeed) == LudicrousSpeed) ==> Valid()
    {
      isAlive := true;
      x := startingConditions.x;
      y := startingConditions.y;
      direction := startingConditions.direction;
      linePoints := [];
      horizontalLines := [];
      verticalLines := [];
      SaveLinePoint();
      FreshTrail(startingConditions, old(State()));
    }
  }

  /** The players as values, in array order. */
  ghost function Snapshot(ps: seq<Player>): (bs: seq<Bike>)
    reads ps
    ensures |bs| == |ps|
    ensures forall k :: 0 <= k < |ps| ==> bs[k] == ps[k].State()
  {
    seq(|ps|, k requires 0 <= k < |ps| reads ps => ps[k].State())
  }
}
