/**
 * Arena geometry of the light-cycle game: headings, points, axis-aligned
 * trail segments, and the boundary and obstacle tests a bike runs on its
 * candidate position before committing a move (scripts/script.js).
 *
 * A bike's position (x, y) is its BACK; the bike is a line of length
 * PlayerHeight along its travel axis, reaching from the back to the front.
 * The bike's width (40) plays no part in any collision test, so it is
 * not declared here.
 */
module Geometry {
  import opened Wrappers

  const ArenaWidth: int := 1200
  const ArenaHeight: int := 600
  const PlayerHeight: int := 75

  datatype Direction = Up | Right | Down | Left

  datatype Point = Point(x: int, y: int)

  /** A trail piece. Endpoints are kept in creation order, not sorted. */
  datatype Segment =
    | Vertical(x: int, y1: int, y2: int)
    | Horizontal(y: int, x1: int, x2: int)

  function Opposite(d: Direction): Direction {
    match d
    case Up => Down
    case Right => Left
    case Down => Up
    case Left => Right
  }

  lemma OppositeInvolution(d: Direction)
    ensures Opposite(d) != d
    ensures Opposite(Opposite(d)) == d
    ensures IsVerticalTravel(Opposite(d)) == IsVerticalTravel(d)
  {
  }

  predicate IsVerticalTravel(d: Direction) {
    d == Up || d == Down
  }

  /** The coordinate a bike heading `d` moves along. */
  function Travel(d: Direction, p: Point): int {
    if IsVerticalTravel(d) then p.y else p.x
  }

  /** The coordinate a bike heading `d` keeps fixed. */
  function Fixed(d: Direction, p: Point): int {
    if IsVerticalTravel(d) then p.x else p.y
  }

  /** -1 for the headings that decrease the travel coordinate, +1 otherwise. */
  function Sign(d: Direction): int {
    if d == Up || d == Left then -1 else 1
  }

  /** Arena extent along the travel axis of `d`. */
  function Extent(d: Direction): int {
    if IsVerticalTravel(d) then ArenaHeight else ArenaWidth
  }

  /** The candidate position computed at the start of a move. */
  function Advance(d: Direction, p: Point, speed: int): (q: Point)
    ensures Fixed(d, q) == Fixed(d, p)
    ensures Travel(d, q) == Travel(d, p) + Sign(d) * speed
  {
    match d
    case Up => Point(p.x, p.y - speed)
    case Right => Point(p.x + speed, p.y)
    case Down => Point(p.x, p.y + speed)
    case Left => Point(p.x - speed, p.y)
  }

  /**
   * The arena-edge test, one branch per heading: the bike placed with its
   * back at `cand` reaches past the arena edge that lies ahead of it.
   */
  function HitsBoundary(d: Direction, cand: Point): (hit: bool)
    ensures hit <==>
      if Sign(d) < 0 then Travel(d, cand) - PlayerHeight < 0 else Travel(d, cand) + PlayerHeight > Extent(d)
  {
    match d
    case Up => cand.y - PlayerHeight < 0
    case Right => cand.x + PlayerHeight > ArenaWidth
    case Down => cand.y + PlayerHeight > ArenaHeight
    case Left => cand.x - PlayerHeight < 0
  }

  function Min(a: int, b: int): int { if a < b then a else b }
  function Max(a: int, b: int): int { if a < b then b else a }

  /** v lies strictly between a and b, whichever of the two is larger. */
  predicate Between(v: int, a: int, b: int) {
    Min(a, b) < v < Max(a, b)
  }

  /**
   * The first layer of the obstacle test: a segment perpendicular to travel
   * kills when its fixed coordinate lies strictly between the bike's back
   * and front and the bike's fixed coordinate lies strictly between the
   * segment's endpoints. `cur` is the bike's committed position, `cand` the
   * candidate. A segment of the other kind never matches.
   */
  function PerpendicularHit(d: Direction, cur: Point, cand: Point, s: Segment): (hit: bool)
    ensures hit ==> !ParallelTo(d, s) && Between(Fixed(d, cur), SegmentFrom(s), SegmentTo(s))
  {
    match d
    case Up =>
      s.Horizontal? && s.y < cand.y && s.y > cand.y - PlayerHeight && Between(cur.x, s.x1, s.x2)
    case Right =>
      s.Vertical? && cand.x + PlayerHeight > s.x && cand.x < s.x && Between(cur.y, s.y1, s.y2)
    case Down =>
      s.Horizontal? && s.y > cand.y && s.y < cand.y + PlayerHeight && Between(cur.x, s.x1, s.x2)
    case Left =>
      s.Vertical? && cand.x - PlayerHeight < s.x && cand.x > s.x && Between(cur.y, s.y1, s.y2)
  }

  /**
   * The second layer: a segment parallel to travel kills when the bike runs
   * exactly along it and the bike's front lies strictly inside it.
   */
  function ParallelHit(d: Direction, cur: Point, cand: Point, s: Segment): (hit: bool)
    ensures hit ==> ParallelTo(d, s) && Fixed(d, cur) == SegmentLine(s)
  {
    match d
    case Up =>
      s.Vertical? && cur.x == s.x && Between(cand.y - PlayerHeight, s.y1, s.y2)
    case Right =>
      s.Horizontal? && cur.y == s.y && Between(cand.x + PlayerHeight, s.x1, s.x2)
    case Down =>
      s.Vertical? && cur.x == s.x && Between(cand.y + PlayerHeight, s.y1, s.y2)
    case Left =>
      s.Horizontal? && cur.y == s.y && Between(cand.x - PlayerHeight, s.x1, s.x2)
  }

  predicate Hits(d: Direction, cur: Point, cand: Point, s: Segment) {
    PerpendicularHit(d, cur, cand, s) || ParallelHit(d, cur, cand, s)
  }

  predicate HitsAny(d: Direction, cur: Point, cand: Point, obstacles: seq<Segment>) {
    exists i :: 0 <= i < |obstacles| && Hits(d, cur, cand, obstacles[i])
  }

  /**
   * The segment that closes the stretch from `a` to `b`: vertical when the
   * x values agree, otherwise horizontal when the y values agree, otherwise
   * none. Used both when a line point is saved and for a bike's in-flight
   * stretch.
   */
  function ClosingSegment(a: Point, b: Point): (r: Option<Segment>)
    ensures r.Some? <==> a.x == b.x || a.y == b.y
    ensures r.Some? ==> Endpoints(r.value) == (a, b)
    ensures r.Some? ==> (r.value.Vertical? <==> a.x == b.x)
  {
    if a.x == b.x then Some(Vertical(a.x, a.y, b.y))
    else if a.y == b.y then Some(Horizontal(a.y, a.x, b.x))
    else None
  }

  /** The coordinate a segment keeps fixed: x of a vertical, y of a horizontal. */
  function SegmentLine(s: Segment): int {
    if s.Vertical? then s.x else s.y
  }

  /** The first endpoint's coordinate along the segment. */
  function SegmentFrom(s: Segment): int {
    if s.Vertical? then s.y1 else s.x1
  }

  /** The second endpoint's coordinate along the segment. */
  function SegmentTo(s: Segment): int {
    if s.Vertical? then s.y2 else s.x2
  }

  function Endpoints(s: Segment): (Point, Point) {
    match s
    case Vertical(x, y1, y2) => (Point(x, y1), Point(x, y2))
    case Horizontal(y, x1, x2) => (Point(x1, y), Point(x2, y))
  }

  // ---------------------------------------------------------------------
  // An axis-generic reference description of the same tests.

  /** The bike's front: PlayerHeight ahead of the candidate back. */
  function Front(d: Direction, cur: Point, cand: Point): (f: Point)
    ensures Fixed(d, f) == Fixed(d, cur)
    ensures Travel(d, f) == Travel(d, cand) + Sign(d) * PlayerHeight
  {
    match d
    case Up => Point(cur.x, cand.y - PlayerHeight)
    case Right => Point(cand.x + PlayerHeight, cur.y)
    case Down => Point(cur.x, cand.y + PlayerHeight)
    case Left => Point(cand.x - PlayerHeight, cur.y)
  }

  /** The bike's body as a segment from its back to its front. */
  function Body(d: Direction, cur: Point, cand: Point): (s: Segment)
    ensures s.Vertical? <==> IsVerticalTravel(d)
    ensures Endpoints(s) == (if IsVerticalTravel(d) then Point(cur.x, cand.y) else Point(cand.x, cur.y), Front(d, cur, cand))
  {
    var f := Front(d, cur, cand);
    if IsVerticalTravel(d) then Vertical(cur.x, cand.y, f.y) else Horizontal(cur.y, cand.x, f.x)
  }

  /** Two segments of different kinds cross at a point interior to both. */
  predicate Crosses(a: Segment, b: Segment) {
    match (a, b)
    case (Vertical(x, y1, y2), Horizontal(y, x1, x2)) => Between(x, x1, x2) && Between(y, y1, y2)
    case (Horizontal(y, x1, x2), Vertical(x, y1, y2)) => Between(x, x1, x2) && Between(y, y1, y2)
    case _ => false
  }

  /** `p` lies on `s` strictly between its endpoints. */
  predicate InInterior(p: Point, s: Segment) {
    match s
    case Vertical(x, y1, y2) => p.x == x && Between(p.y, y1, y2)
    case Horizontal(y, x1, x2) => p.y == y && Between(p.x, x1, x2)
  }

  predicate ParallelTo(d: Direction, s: Segment) {
    s.Vertical? == IsVerticalTravel(d)
  }

  /**
   * The four per-heading obstacle branches are one rule: a perpendicular
   * segment kills exactly when it properly crosses the bike's body, and a
   * parallel segment exactly when the bike's front lies inside it.
   */
  lemma CollisionIsGeometric(d: Direction, cur: Point, cand: Point, s: Segment)
    requires Fixed(d, cand) == Fixed(d, cur)
    ensures PerpendicularHit(d, cur, cand, s) <==> Crosses(Body(d, cur, cand), s)
    ensures ParallelHit(d, cur, cand, s) <==> ParallelTo(d, s) && InInterior(Front(d, cur, cand), s)
    ensures Hits(d, cur, cand, s) <==>
      if ParallelTo(d, s) then InInterior(Front(d, cur, cand), s) else Crosses(Body(d, cur, cand), s)
  {
  }

  /**
   * The four per-heading boundary branches are one rule: the front passes
   * the arena edge that lies ahead, strictly.
   */
  lemma BoundaryIsFrontPastEdge(d: Direction, cur: Point, cand: Point)
    ensures HitsBoundary(d, cand) <==>
      var f := Travel(d, Front(d, cur, cand));
      if Sign(d) < 0 then f < 0 else f > Extent(d)
  {
  }

  /** A bike never collides with a segment made of a single point. */
  lemma PointSegmentHarmless(d: Direction, cur: Point, cand: Point, p: Point)
    ensures !Hits(d, cur, cand, Vertical(p.x, p.y, p.y))
    ensures !Hits(d, cur, cand, Horizontal(p.y, p.x, p.x))
  {
  }
}
