/**
 * The collision functions of src/utils/index.ts. The first object is always
 * a ball of src/utils/physics-objects/Ball.ts; the second is a ball or a
 * wall, and each function takes the branch that matches it. A wall is
 * handled through the point of the wall nearest to the ball's centre.
 */
module Collisions {
  import opened Numerics
  import opened Vectors
  import opened Walls
  import opened Contact
  import PhysicsBalls

  type Ball = PhysicsBalls.Ball

  /** The second argument of the collision functions: a ball or a wall. */
  datatype Obstacle = BallObstacle(ball: Ball) | WallObstacle(wall: Wall)
  {
    /** The objects a collision with this obstacle may change besides the first ball. */
    function Objects(): set<Ball> {
      if BallObstacle? then {ball} else {}
    }
  }

  /**
   * `findClosestPoint`: the start of the wall when the centre lies before
   * it, the end when it lies beyond it, otherwise the foot of the
   * perpendicular from the centre. The source reads only the ball's
   * position, which is what is passed here.
   */
  function FindClosestPoint(math: Math, position: Vec, w: Wall): (r: Vec)
    requires math.Valid()
    ensures w.startPosition == w.endPosition ==> r == w.startPosition
  {
    var ballToWallStart := w.startPosition.Subtract(position);
    if w.Unit(math).Dot(ballToWallStart) > 0.0 then w.startPosition
    else
      var wallEndToBall := position.Subtract(w.endPosition);
      if w.Unit(math).Dot(wallEndToBall) > 0.0 then w.endPosition
      else
        var closestDistance := w.Unit(math).Dot(ballToWallStart);
        var closestVector := w.Unit(math).Multiply(closestDistance);
        w.startPosition.Subtract(closestVector)
  }

  /** The point of the wall's line at parameter `t` (the start at 0, the end at the wall's length). */
  function PointAlong(math: Math, w: Wall, t: real): Vec
    requires math.Valid()
  {
    w.startPosition.Add(w.Unit(math).Multiply(t))
  }

  /**
   * The closest point lies on the wall: it is the point at the projection of
   * the centre onto the wall's line, clamped to the wall. Before the start
   * it is the start, beyond the end it is the end, and in between the line
   * from it to the centre is perpendicular to the wall.
   */
  lemma ClosestPointOnSegment(math: Math, p: Vec, w: Wall)
    requires math.Valid()
    requires w.startPosition != w.endPosition
    ensures var u := w.Unit(math);
      var c := u.Dot(p.Subtract(w.startPosition));
      var r := FindClosestPoint(math, p, w);
      && r == PointAlong(math, w, Clamp(c, 0.0, w.Length(math)))
      && (c < 0.0 ==> r == w.startPosition)
      && (w.Length(math) < c ==> r == w.endPosition)
      && (0.0 <= c <= w.Length(math) ==> u.Dot(p.Subtract(r)) == 0.0)
  {
    var u := w.Unit(math);
    var s := w.startPosition;
    var c := u.Dot(p.Subtract(s));
    EndProjections(math, p, w);
    if c < 0.0 {
      assert u.Multiply(0.0) == Zero;
    } else if w.Length(math) < c {
    } else {
      assert FindClosestPoint(math, p, w) == s.Add(u.Multiply(c)) by {
        assert s.Subtract(u.Multiply(-c)) == s.Add(u.Multiply(c));
      }
      assert p.Subtract(s.Add(u.Multiply(c))) == p.Subtract(s).Subtract(u.Multiply(c));
      FootIsPerpendicular(p.Subtract(s), u);
    }
  }

  /**
   * The projections `findClosestPoint` tests, in terms of the projection
   * `c` of the centre onto the wall's line: the start test is `-c` and the
   * end test is `c` minus the wall's length.
   */
  lemma EndProjections(math: Math, p: Vec, w: Wall)
    requires math.Valid()
    ensures var u := w.Unit(math);
      var c := u.Dot(p.Subtract(w.startPosition));
      && u.Dot(w.startPosition.Subtract(p)) == -c
      && u.Dot(p.Subtract(w.endPosition)) == c - w.Length(math)
      && u.Dot(u) == (if w.startPosition == w.endPosition then 0.0 else 1.0)
      && u.Multiply(w.Length(math)) == w.endPosition.Subtract(w.startPosition)
  {
    UnitAlongWall(math, w);
    ProjectionDifferences(w.Unit(math), w.startPosition, w.endPosition, p);
  }

  /** Projections onto `u` of the vectors from the centre to the ends, relative to the projection of the centre. */
  lemma ProjectionDifferences(u: Vec, s: Vec, e: Vec, p: Vec)
    ensures u.Dot(s.Subtract(p)) == -u.Dot(p.Subtract(s))
    ensures u.Dot(p.Subtract(e)) == u.Dot(p.Subtract(s)) - u.Dot(e.Subtract(s))
  {
  }

  /** The foot of the perpendicular from `d` onto the line along the unit vector `u` sees `d` at a right angle. */
  lemma FootIsPerpendicular(d: Vec, u: Vec)
    requires u.Dot(u) == 1.0
    ensures u.Dot(d.Subtract(u.Multiply(u.Dot(d)))) == 0.0
  {
    var c := u.Dot(d);
    assert u.Dot(d.Subtract(u.Multiply(c))) == c - c * u.Dot(u);
  }

  /**
   * Completing the square: the squared distance from `d` to the point `t`
   * along the unit direction `u` is the squared distance to the line plus
   * the square of how far `t` is from the projection `u·d`.
   */
  lemma LineDistance(d: Vec, u: Vec, t: real)
    requires u.Dot(u) == 1.0
    ensures var e := d.Subtract(u.Multiply(t));
      e.Dot(e) == d.Dot(d) - Square(u.Dot(d)) + Square(t - u.Dot(d))
  {
    var c := u.Dot(d);
    var e := d.Subtract(u.Multiply(t));
    assert e.Dot(e) == d.Dot(d) - 2.0 * t * c + t * t * u.Dot(u);
    MulLeft(u.Dot(u), 1.0, t * t);
    assert Square(t - c) == t * t - 2.0 * t * c + c * c;
  }

  /** The squared distance between two points, as the self dot product of their difference. */
  lemma SquaredDistance(math: Math, p: Vec, q: Vec)
    requires math.Valid()
    ensures Square(p.Distance(math, q)) == p.Subtract(q).Dot(p.Subtract(q))
  {
    MagnitudeSquared(math, p.Subtract(q));
  }

  /**
   * The closest point is the nearest point of the wall: no point of the
   * wall is closer to the centre.
   */
  lemma ClosestPointIsNearest(math: Math, p: Vec, w: Wall, t: real)
    requires math.Valid()
    requires w.startPosition != w.endPosition
    requires 0.0 <= t <= w.Length(math)
    ensures p.Distance(math, FindClosestPoint(math, p, w)) <= p.Distance(math, PointAlong(math, w, t))
  {
    var u := w.Unit(math);
    var d := p.Subtract(w.startPosition);
    var c := u.Dot(d);
    var closest := Clamp(c, 0.0, w.Length(math));
    ClosestPointOnSegment(math, p, w);
    UnitAlongWall(math, w);
    assert p.Subtract(PointAlong(math, w, closest)) == d.Subtract(u.Multiply(closest));
    assert p.Subtract(PointAlong(math, w, t)) == d.Subtract(u.Multiply(t));
    LineDistance(d, u, closest);
    LineDistance(d, u, t);
    ClampIsNearest(c, 0.0, w.Length(math), t);
    var near := p.Distance(math, FindClosestPoint(math, p, w));
    var far := p.Distance(math, PointAlong(math, w, t));
    SquaredDistance(math, p, FindClosestPoint(math, p, w));
    SquaredDistance(math, p, PointAlong(math, w, t));
    if far < near {
      SquareLess(far, near);
    }
  }

  /**
   * Ball–wall contact: the centre is within `reach` of the point, stated
   * without the square root. The bound is inclusive, unlike the ball–ball
   * test.
   */
  function Touching(math: Math, p: Vec, q: Vec, reach: real): (r: bool)
    requires math.Valid()
    ensures r <==> 0.0 <= reach && Square(p.x - q.x) + Square(p.y - q.y) <= Square(reach)
  {
    SquareSign(p.x - q.x, p.x - q.x);
    SquareSign(p.y - q.y, p.y - q.y);
    if reach < 0.0 then p.Distance(math, q) <= reach
    else
      math.SqrtLess(Square(p.x - q.x) + Square(p.y - q.y), reach);
      p.Distance(math, q) <= reach
  }

  /**
   * `isColliding`: two balls collide when their centres are closer than the
   * sum of their radii; a ball touches a wall when the wall's closest point
   * is within its radius.
   */
  function IsColliding(math: Math, obj1: Ball, obj2: Obstacle): (r: bool)
    reads obj1, obj2.Objects()
    requires math.Valid()
    ensures obj2.BallObstacle? ==>
      (r <==> Overlapping(math, obj1.position, obj2.ball.position, obj1.radius + obj2.ball.radius))
    ensures obj2.WallObstacle? ==>
      (r <==> Touching(math, obj1.position, FindClosestPoint(math, obj1.position, obj2.wall), obj1.radius))
  {
    match obj2
    case BallObstacle(ball) =>
      obj1.position.Distance(math, ball.position) < obj1.radius + ball.radius
    case WallObstacle(wall) =>
      var closestPoint := FindClosestPoint(math, obj1.position, wall);
      obj1.position.Distance(math, closestPoint) <= obj1.radius
  }

  /**
   * A ball touches a wall exactly when some point of the wall is within its
   * radius: the closest-point test loses no contact and invents none.
   */
  lemma WallContactIsReach(math: Math, b: Ball, w: Wall)
    requires math.Valid()
    requires w.startPosition != w.endPosition
    ensures IsColliding(math, b, WallObstacle(w)) <==>
      exists t :: 0.0 <= t <= w.Length(math) && b.position.Distance(math, PointAlong(math, w, t)) <= b.radius
  {
    var p := b.position;
    var c := w.Unit(math).Dot(p.Subtract(w.startPosition));
    var closest := Clamp(c, 0.0, w.Length(math));
    ClosestPointOnSegment(math, p, w);
    if IsColliding(math, b, WallObstacle(w)) {
      assert p.Distance(math, PointAlong(math, w, closest)) <= b.radius;
    }
    if exists t :: 0.0 <= t <= w.Length(math) && p.Distance(math, PointAlong(math, w, t)) <= b.radius {
      var t :| 0.0 <= t <= w.Length(math) && p.Distance(math, PointAlong(math, w, t)) <= b.radius;
      ClosestPointIsNearest(math, p, w, t);
    }
  }

  /**
   * `resolvePenetration`: against a ball, both centres move apart along the
   * normal by inverse-mass shares of the overlap (the source divides by the
   * total inverse mass unguarded, so a nonzero total is required); against a
   * wall, the ball moves along the line from the closest point until it is
   * exactly one radius away. Nothing but the positions changes.
   */
  method ResolvePenetration(math: Math, obj1: Ball, obj2: Obstacle)
    requires math.Valid()
    requires obj1.Valid() && (obj2.BallObstacle? ==> obj2.ball.Valid())
    requires obj2.BallObstacle? ==> obj1.InverseMass() + obj2.ball.InverseMass() != 0.0
    modifies obj1`position, obj2.Objects()`position
    ensures obj1.Valid() && (obj2.BallObstacle? ==> obj2.ball.Valid())
    ensures obj2.BallObstacle? ==>
      var r := BallPenetration(math, old(obj1.position), old(obj2.ball.position), obj1.radius, obj2.ball.radius,
                               obj1.InverseMass(), obj2.ball.InverseMass());
      obj1.position == r.first && obj2.ball.position == r.second
    ensures obj2.WallObstacle? ==>
      obj1.position == WallPenetration(math, old(obj1.position), FindClosestPoint(math, old(obj1.position), obj2.wall), obj1.radius)
  {
    match obj2
    case BallObstacle(ball) =>
      var distanceVector := obj1.position.Subtract(ball.position);
      var penetrationDepth := obj1.radius + ball.radius - distanceVector.Magnitude(math);
      var penetrationResolution := distanceVector.SetMagnitude(math, 1.0).Multiply(penetrationDepth / (obj1.InverseMass() + ball.InverseMass()));
      obj1.position := obj1.position.Add(penetrationResolution.Multiply(obj1.InverseMass()));
      ball.position := ball.position.Subtract(penetrationResolution.Multiply(ball.InverseMass()));
    case WallObstacle(wall) =>
      var penetrationVector := obj1.position.Subtract(FindClosestPoint(math, obj1.position, wall));
      obj1.position := obj1.position.Add(penetrationVector.Unit(math).Multiply(obj1.radius - penetrationVector.Magnitude(math)));
  }

  /**
   * `resolveCollision`: against a ball, an impulse along the normal shared
   * by inverse mass, nothing when the total inverse mass is not positive;
   * against a wall, the velocity component along the wall's normal is
   * reversed and scaled by the ball's elasticity. Nothing but the velocities
   * changes.
   */
  method ResolveCollision(math: Math, obj1: Ball, obj2: Obstacle)
    requires math.Valid()
    requires obj1.Valid() && (obj2.BallObstacle? ==> obj2.ball.Valid())
    modifies obj1`velocity, obj2.Objects()`velocity
    ensures obj1.Valid() && (obj2.BallObstacle? ==> obj2.ball.Valid())
    ensures obj2.BallObstacle? ==>
      var r := BallImpulse(math, obj1.position, obj2.ball.position, old(obj1.velocity), old(obj2.ball.velocity),
                           obj1.elasticity, obj2.ball.elasticity, obj1.InverseMass(), obj2.ball.InverseMass());
      obj1.velocity == r.first && obj2.ball.velocity == r.second
    ensures obj2.WallObstacle? ==>
      obj1.velocity == WallImpulse(math, obj1.position, FindClosestPoint(math, obj1.position, obj2.wall), old(obj1.velocity), obj1.elasticity)
  {
    match obj2
    case BallObstacle(ball) =>
      var normal := obj1.position.Subtract(ball.position).SetMagnitude(math, 1.0);
      var relativeVelocity := obj1.velocity.Subtract(ball.velocity);
      var separationVelocity := relativeVelocity.Dot(normal);
      var totalInverseMass := obj1.InverseMass() + ball.InverseMass();
      if totalInverseMass <= 0.0 {
        return;
      }
      var impulse := Impulse(separationVelocity, Min(obj1.elasticity, ball.elasticity), totalInverseMass);
      var impulseVector := normal.Multiply(impulse);
      if obj1 == ball {
        CoincidentCentresImpulse(math, obj1.position, obj1.velocity, ball.velocity, obj1.elasticity, ball.elasticity,
                                 obj1.InverseMass(), ball.InverseMass());
      }
      obj1.velocity := obj1.velocity.Add(impulseVector.Multiply(obj1.InverseMass()));
      ball.velocity := ball.velocity.Add(impulseVector.Multiply(-ball.InverseMass()));
    case WallObstacle(wall) =>
      var normal := obj1.position.Subtract(FindClosestPoint(math, obj1.position, wall)).Unit(math);
      obj1.velocity := ReflectAlong(normal, obj1.velocity, obj1.elasticity);
  }
}
