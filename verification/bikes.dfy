/**
 * Value-level description of one player's bike (scripts/script.js, class
 * Player): where it is, where it is heading, whether it is alive, and the
 * trail it has left. The class Players.Player is proved against these
 * functions.
 */
module Bikes {
  import opened Wrappers
  import opened Geometry

  const NormalSpeed: int := 3
  const LudicrousSpeed: int := 8

  /** Spawn point and heading, kept so that a replay can restore them. */
  datatype Spawn = Spawn(x: int, y: int, direction: Direction)

  /**
   * Player 1 starts at the left edge heading right, any later player at the
   * right edge heading left, both on the row half the arena height minus
   * one bike length.
   */
  function StartingConditions(playerNum: nat): (s: Spawn)
    ensures (s.x == 0 && s.direction == Right) || (s.x == ArenaWidth && s.direction == Left)
    ensures 0 <= s.y && s.y + PlayerHeight <= ArenaHeight
  {
    Spawn(if playerNum == 1 then 0 else ArenaWidth,
          ArenaHeight / 2 - PlayerHeight,
          if playerNum == 1 then Right else Left)
  }

  /**
   * Both spawns lie on one row, face each other, and at either speed the
   * first move of each stays inside the arena.
   */
  lemma SpawnsFaceEachOther(speed: int)
    requires speed == NormalSpeed || speed == LudicrousSpeed
    ensures StartingConditions(1).y == StartingConditions(2).y == 225
    ensures StartingConditions(2).direction == Opposite(StartingConditions(1).direction)
    ensures forall n: nat :: n >= 1 ==>
      var s := StartingConditions(n);
      !HitsBoundary(s.direction, Advance(s.direction, Point(s.x, s.y), speed))
  {
  }

  datatype Bike = Bike(
    x: int, y: int, direction: Direction, alive: bool, speed: int,
    points: seq<Point>, verticals: seq<Segment>, horizontals: seq<Segment>,
    start: Spawn)
  {
    function Pos(): Point { Point(x, y) }
  }

  function Last(ps: seq<Point>): Point
    requires |ps| > 0
  {
    ps[|ps| - 1]
  }

  /** The vertical segments closed between consecutive line points. */
  function Verticals(ps: seq<Point>): (vs: seq<Segment>)
    ensures forall i :: 0 <= i < |vs| ==> vs[i].Vertical?
    ensures |vs| <= if |ps| == 0 then 0 else |ps| - 1
    decreases |ps|
  {
    if |ps| < 2 then []
    else
      var c := ClosingSegment(ps[|ps| - 2], ps[|ps| - 1]);
      Verticals(ps[..|ps| - 1]) + (if c.Some? && c.value.Vertical? then [c.value] else [])
  }

  /** The horizontal segments closed between consecutive line points. */
  function Horizontals(ps: seq<Point>): (hs: seq<Segment>)
    ensures forall i :: 0 <= i < |hs| ==> hs[i].Horizontal?
    ensures |hs| <= if |ps| == 0 then 0 else |ps| - 1
    decreases |ps|
  {
    if |ps| < 2 then []
    else
      var c := ClosingSegment(ps[|ps| - 2], ps[|ps| - 1]);
      Horizontals(ps[..|ps| - 1]) + (if c.Some? && c.value.Horizontal? then [c.value] else [])
  }

  /** Every two consecutive line points share a coordinate. */
  predicate AxisAligned(ps: seq<Point>) {
    forall i :: 0 < i < |ps| ==> ps[i - 1].x == ps[i].x || ps[i - 1].y == ps[i].y
  }

  /**
   * On an axis-aligned trail each consecutive pair of line points closes
   * exactly one segment, vertical or horizontal.
   */
  lemma {:induction false} SegmentCount(ps: seq<Point>)
    requires |ps| > 0 && AxisAligned(ps)
    ensures |Verticals(ps)| + |Horizontals(ps)| == |ps| - 1
    decreases |ps|
  {
    if |ps| >= 2 {
      var init := ps[..|ps| - 1];
      assert AxisAligned(init) by {
        forall i | 0 < i < |init| ensures init[i - 1].x == init[i].x || init[i - 1].y == init[i].y {
          assert init[i - 1] == ps[i - 1] && init[i] == ps[i];
        }
      }
      SegmentCount(init);
      assert ps[|ps| - 2].x == ps[|ps| - 1].x || ps[|ps| - 2].y == ps[|ps| - 1].y;
    }
  }

  /** The last line point lies behind the bike on its line of travel. */
  predicate Behind(lp: Point, p: Point, d: Direction) {
    Fixed(d, lp) == Fixed(d, p) && Sign(d) * (Travel(d, p) - Travel(d, lp)) >= 0
  }

  /**
   * What every reachable bike satisfies: at least one line point, the two
   * segment lists are exactly those closed by consecutive line points, the
   * trail is axis-aligned, the in-flight stretch lies behind the bike and
   * the speed is one of the two game speeds.
   */
  ghost predicate BikeInv(b: Bike) {
    && |b.points| > 0
    && b.verticals == Verticals(b.points)
    && b.horizontals == Horizontals(b.points)
    && AxisAligned(b.points)
    && Behind(Last(b.points), b.Pos(), b.direction)
    && (b.speed == NormalSpeed || b.speed == LudicrousSpeed)
  }

  /** The stretch from the last line point to the live position. */
  function InFlight(b: Bike): Option<Segment>
    requires |b.points| > 0
  {
    ClosingSegment(Last(b.points), b.Pos())
  }

  /** A bike's obstacles: its committed segments, then its in-flight stretch. */
  function Contribution(b: Bike): seq<Segment>
    requires |b.points| > 0
  {
    b.verticals + b.horizontals + (match InFlight(b) case Some(s) => [s] case None => [])
  }

  ghost predicate AllStarted(bs: seq<Bike>) {
    forall i :: 0 <= i < |bs| ==> |bs[i].points| > 0
  }

  /** Every bike in `bs` satisfies the bike invariant. */
  ghost predicate AllInv(bs: seq<Bike>) {
    AllStarted(bs) && forall k :: 0 <= k < |bs| ==> BikeInv(bs[k])
  }

  /** The obstacle list every bike in `bs` is tested against, in array order. */
  function ObstaclesOf(bs: seq<Bike>): (r: seq<Segment>)
    requires AllStarted(bs)
    ensures forall i, s :: 0 <= i < |bs| && s in Contribution(bs[i]) ==> s in r
    decreases |bs|
  {
    if bs == [] then []
    else
      var init := bs[..|bs| - 1];
      assert forall i :: 0 <= i < |init| ==> init[i] == bs[i];
      ObstaclesOf(init) + Contribution(bs[|bs| - 1])
  }

  /**
   * The obstacle list holds exactly the committed segments of every bike
   * and every in-flight stretch.
   */
  lemma {:induction false} ObstaclesCover(bs: seq<Bike>, s: Segment)
    requires AllStarted(bs)
    ensures s in ObstaclesOf(bs) <==> exists i :: 0 <= i < |bs| && s in Contribution(bs[i])
    decreases |bs|
  {
    if bs != [] {
      var init, last := bs[..|bs| - 1], bs[|bs| - 1];
      ObstaclesCover(init, s);
      assert ObstaclesOf(bs) == ObstaclesOf(init) + Contribution(last);
      assert s in ObstaclesOf(bs) <==> s in ObstaclesOf(init) || s in Contribution(last);
      assert forall i :: 0 <= i < |init| ==> init[i] == bs[i];
    }
  }

  /** Bikes whose trails agree give the same obstacle list. */
  lemma {:induction false} ObstaclesCongruent(bs: seq<Bike>, cs: seq<Bike>)
    requires AllStarted(bs) && AllStarted(cs) && |bs| == |cs|
    requires forall i :: 0 <= i < |bs| ==> Contribution(bs[i]) == Contribution(cs[i])
    ensures ObstaclesOf(bs) == ObstaclesOf(cs)
    decreases |bs|
  {
    if bs != [] {
      ObstaclesCongruent(bs[..|bs| - 1], cs[..|cs| - 1]);
    }
  }

  /** saveLinePoint: close the in-flight stretch and record the position. */
  function SaveLinePoint(b: Bike): (r: Bike)
    ensures r == b.(points := r.points, verticals := r.verticals, horizontals := r.horizontals)
    ensures r.points == b.points + [b.Pos()]
    ensures b.verticals <= r.verticals && b.horizontals <= r.horizontals
    ensures |r.verticals| + |r.horizontals| <= |b.verticals| + |b.horizontals| + 1
  {
    var c := if |b.points| >= 1 then ClosingSegment(Last(b.points), b.Pos()) else None;
    b.(verticals := b.verticals + (if c.Some? && c.value.Vertical? then [c.value] else []),
       horizontals := b.horizontals + (if c.Some? && c.value.Horizontal? then [c.value] else []),
       points := b.points + [b.Pos()])
  }

  /**
   * Saving a line point appends the position to the line points and keeps
   * both segment lists equal to the ones derived from the line points.
   */
  lemma SaveKeepsTrailDerived(b: Bike)
    requires b.verticals == Verticals(b.points) && b.horizontals == Horizontals(b.points)
    ensures SaveLinePoint(b).points == b.points + [b.Pos()]
    ensures SaveLinePoint(b).verticals == Verticals(b.points + [b.Pos()])
    ensures SaveLinePoint(b).horizontals == Horizontals(b.points + [b.Pos()])
  {
    var ps := b.points + [b.Pos()];
    assert ps[..|ps| - 1] == b.points;
  }

  /** updatePlayerDirection: save a line point, then take the new heading. */
  function Turn(b: Bike, d: Direction): (r: Bike)
    ensures r.direction == d && r.Pos() == b.Pos() && r.alive == b.alive && r.speed == b.speed
    ensures r.points == b.points + [b.Pos()]
  {
    SaveLinePoint(b).(direction := d)
  }

  /**
   * A turn appends exactly one line point, the current position, and
   * exactly one segment: vertical when the last line point shares the
   * bike's x, horizontal otherwise. The invariant survives any new heading.
   */
  lemma TurnGrowsTrail(b: Bike, d: Direction)
    requires BikeInv(b)
    ensures var r := Turn(b, d);
      && r.points == b.points + [b.Pos()]
      && r.direction == d
      && r.Pos() == b.Pos()
      && (Last(b.points).x == b.x ==>
            r.verticals == b.verticals + [Vertical(b.x, Last(b.points).y, b.y)] && r.horizontals == b.horizontals)
      && (Last(b.points).x != b.x ==>
            r.horizontals == b.horizontals + [Horizontal(b.y, Last(b.points).x, b.x)] && r.verticals == b.verticals)
      && |r.verticals| + |r.horizontals| == |b.verticals| + |b.horizontals| + 1
      && BikeInv(r)
  {
    SaveKeepsTrailDerived(b);
    var r := Turn(b, d);
    assert AxisAligned(r.points) by {
      forall i | 0 < i < |r.points| ensures r.points[i - 1].x == r.points[i].x || r.points[i - 1].y == r.points[i].y {
        if i < |b.points| {
          assert r.points[i - 1] == b.points[i - 1] && r.points[i] == b.points[i];
        }
      }
    }
  }

  /**
   * One move against `obstacles`: the candidate position is tested against
   * the arena edge and every obstacle, and the bike advances only if it is
   * (still) alive afterwards.
   */
  function MoveBike(b: Bike, obstacles: seq<Segment>): (r: Bike)
    ensures r == b.(x := r.x, y := r.y, alive := r.alive)
    ensures r.alive ==> b.alive && r.Pos() == Advance(b.direction, b.Pos(), b.speed)
    ensures !r.alive ==> r.Pos() == b.Pos()
  {
    var cand := Advance(b.direction, b.Pos(), b.speed);
    var alive := b.alive && !HitsBoundary(b.direction, cand) && !HitsAny(b.direction, b.Pos(), cand, obstacles);
    if alive then b.(x := cand.x, y := cand.y) else b.(alive := false)
  }

  /**
   * A move changes nothing but the position and the alive flag; it moves
   * the bike exactly `speed` along its heading, and only when the bike
   * survives both tests; a bike it kills keeps its position.
   */
  lemma MoveCommitsOnlyTravelAxis(b: Bike, obstacles: seq<Segment>)
    ensures var r := MoveBike(b, obstacles);
      var cand := Advance(b.direction, b.Pos(), b.speed);
      && r == b.(x := r.x, y := r.y, alive := r.alive)
      && (r.alive <==> b.alive && !HitsBoundary(b.direction, cand) && !HitsAny(b.direction, b.Pos(), cand, obstacles))
      && Fixed(b.direction, r.Pos()) == Fixed(b.direction, b.Pos())
      && Travel(b.direction, r.Pos()) == Travel(b.direction, b.Pos()) + (if r.alive then Sign(b.direction) * b.speed else 0)
  {
  }

  /** Moves keep the bike invariant, whatever the obstacles. */
  lemma MovePreservesInv(b: Bike, obstacles: seq<Segment>)
    requires BikeInv(b)
    ensures BikeInv(MoveBike(b, obstacles))
    ensures MoveBike(b, obstacles).alive ==> b.alive
  {
  }

  /**
   * A bike moving straight is never killed by its own in-flight stretch:
   * adding that stretch anywhere to the obstacle list changes nothing.
   */
  lemma OwnInFlightHarmless(b: Bike, before: seq<Segment>, after: seq<Segment>)
    requires BikeInv(b)
    ensures InFlight(b).Some?
    ensures MoveBike(b, before + [InFlight(b).value] + after) == MoveBike(b, before + after)
  {
    var s := InFlight(b).value;
    var cand := Advance(b.direction, b.Pos(), b.speed);
    assert !Hits(b.direction, b.Pos(), cand, s);
    var all := before + [s] + after;
    var rest := before + after;
    assert HitsAny(b.direction, b.Pos(), cand, all) == HitsAny(b.direction, b.Pos(), cand, rest) by {
      if HitsAny(b.direction, b.Pos(), cand, all) {
        var i :| 0 <= i < |all| && Hits(b.direction, b.Pos(), cand, all[i]);
        if i < |before| { assert all[i] == rest[i]; }
        else { assert i > |before|; assert all[i] == rest[i - 1]; }
      }
      if HitsAny(b.direction, b.Pos(), cand, rest) {
        var i :| 0 <= i < |rest| && Hits(b.direction, b.Pos(), cand, rest[i]);
        if i < |before| { assert rest[i] == all[i]; }
        else { assert rest[i] == all[i + 1]; }
      }
    }
  }

  /** The bike a new player starts with: alive, normal speed, one line point. */
  function NewBike(start: Spawn): (r: Bike)
    ensures r.alive && r.speed == NormalSpeed && r.start == start
    ensures r.Pos() == Point(start.x, start.y) && r.points == [r.Pos()]
  {
    SaveLinePoint(Bike(start.x, start.y, start.direction, true, NormalSpeed, [], [], [], start))
  }

  /** playAgain, for one player: back to the spawn with a fresh trail. */
  function Respawn(b: Bike): (r: Bike)
    ensures r.alive && r.speed == b.speed && r.start == b.start
    ensures r.Pos() == Point(b.start.x, b.start.y) && r.points == [r.Pos()]
  {
    SaveLinePoint(b.(alive := true, x := b.start.x, y := b.start.y, direction := b.start.direction,
                     points := [], verticals := [], horizontals := []))
  }

  /**
   * After construction or a replay the bike is alive at its spawn, its line
   * points are exactly the spawn point and it has no segments.
   */
  lemma FreshTrail(start: Spawn, b: Bike)
    ensures var n := NewBike(start);
      && n.alive && n.Pos() == Point(start.x, start.y) && n.direction == start.direction
      && n.points == [Point(start.x, start.y)] && n.verticals == [] && n.horizontals == []
      && BikeInv(n)
    ensures var r := Respawn(b);
      && r.alive && r.Pos() == Point(b.start.x, b.start.y) && r.direction == b.start.direction
      && r.points == [Point(b.start.x, b.start.y)] && r.verticals == [] && r.horizontals == []
      && r.speed == b.speed && r.start == b.start
      && ((b.speed == NormalSpeed || b.speed == LudicrousSpeed) ==> BikeInv(r))
  {
  }
}
