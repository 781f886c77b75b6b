/**
 * The ball of src/utils/Ball.ts: a circle that moves by semi-implicit Euler
 * integration, together with the file's own ball–ball collision functions.
 *
 * The source never mutates a ball's `Vector` objects in place: every update
 * builds a fresh vector and assigns it to the field. The fields therefore
 * hold `Vec` values.
 */
module Balls {
  import opened Numerics
  import opened Vectors
  import opened Contact

  /** The smallest radius a ball can have. */
  const MinRadius := 10.0

  class Ball {
    var position: Vec
    var radius: real
    var mass: real
    var color: string
    var isPlayer: bool
    var speed: real
    var velocity: Vec
    var acceleration: Vec
    var friction: real
    var elasticity: real

    /** Every ball is at least `MinRadius` wide. */
    predicate Valid()
      reads this
    {
      MinRadius <= radius
    }

    /** The constructor with the source's defaults; the radius is raised to `MinRadius`. */
    constructor(position: Vec, r: real, mass: real := 1.0, color: string := "red", isPlayer: bool := false,
                velocity: Vec := Zero, speed: real := 0.05, friction: real := 0.01, elasticity: real := 1.0)
      ensures Valid()
      ensures this.position == position && radius == Max(r, MinRadius)
      ensures this.mass == mass && this.color == color && this.isPlayer == isPlayer
      ensures this.velocity == velocity && acceleration == Zero && this.speed == speed
      ensures this.friction == friction && this.elasticity == elasticity
    {
      this.position := position;
      radius := Max(r, MinRadius);
      this.mass := mass;
      this.color := color;
      this.isPlayer := isPlayer;
      this.velocity := velocity;
      acceleration := Zero;
      this.speed := speed;
      this.friction := friction;
      this.elasticity := elasticity;
    }

    /** The `inverseMass` getter: zero for a zero mass, otherwise the reciprocal. */
    function InverseMass(): (r: real)
      reads this
      ensures mass == 0.0 ==> r == 0.0
      ensures mass != 0.0 ==> r * mass == 1.0
    {
      Contact.InverseMass(mass)
    }

    /**
     * One tick: the acceleration is rescaled to length `speed` (a zero
     * acceleration stays zero), added to the velocity, the velocity is damped
     * by the friction, and the position advances by the new velocity.
     */
    method Reposition(math: Math)
      requires math.Valid() && Valid()
      modifies this`acceleration, this`velocity, this`position
      ensures Valid()
      ensures acceleration == Thrust(math, old(acceleration), speed)
      ensures velocity == old(velocity).Add(acceleration).Multiply(1.0 - friction)
      ensures position == old(position).Add(velocity)
    {
      var a := Thrust(math, acceleration, speed);
      acceleration := a;
      var v := velocity.Add(a);
      v := v.Multiply(1.0 - friction);
      velocity := v;
      position := position.Add(v);
    }
  }

  /**
   * The acceleration `reposition` applies: the current one rescaled to
   * length one and multiplied by the speed.
   */
  function Thrust(math: Math, acceleration: Vec, speed: real): Vec
    requires math.Valid()
  {
    acceleration.SetMagnitude(math, 1.0).Multiply(speed)
  }

  /** A zero acceleration stays zero; any other becomes a vector of length |speed|. */
  lemma ThrustLength(math: Math, acceleration: Vec, speed: real)
    requires math.Valid()
    ensures acceleration == Zero ==> Thrust(math, acceleration, speed) == Zero
    ensures acceleration != Zero ==> Thrust(math, acceleration, speed).Magnitude(math) == Abs(speed)
  {
    SetMagnitudeOneIsUnit(math, acceleration);
    ThrustMagnitude(math, acceleration, speed);
  }

  /** The file's own `isColliding`: the centres are closer than the sum of the radii. */
  function IsColliding(math: Math, b1: Ball, b2: Ball): (r: bool)
    reads b1, b2
    requires math.Valid()
    ensures r <==> Overlapping(math, b1.position, b2.position, b1.radius + b2.radius)
  {
    b1.position.Distance(math, b2.position) < b1.radius + b2.radius
  }

  /**
   * The file's own `resolvePenetration`: only the two positions change. The
   * source divides by the total inverse mass without a guard, so a nonzero
   * total is required. The same ball given twice stays where it is.
   */
  method ResolvePenetration(math: Math, b1: Ball, b2: Ball)
    requires math.Valid()
    requires b1.Valid() && b2.Valid()
    requires b1.InverseMass() + b2.InverseMass() != 0.0
    modifies b1`position, b2`position
    ensures b1.Valid() && b2.Valid()
    ensures var r := BallPenetration(math, old(b1.position), old(b2.position), b1.radius, b2.radius, b1.InverseMass(), b2.InverseMass());
      b1.position == r.first && b2.position == r.second
  {
    var distanceVector := b1.position.Subtract(b2.position);
    var penetrationDepth := b1.radius + b2.radius - distanceVector.Magnitude(math);
    var penetrationResolution := distanceVector.SetMagnitude(math, 1.0).Multiply(penetrationDepth / (b1.InverseMass() + b2.InverseMass()));
    b1.position := b1.position.Add(penetrationResolution.Multiply(b1.InverseMass()));
    b2.position := b2.position.Subtract(penetrationResolution.Multiply(b2.InverseMass()));
  }

  /**
   * The file's own `resolveCollision`: only the two velocities change, and
   * nothing changes when the total inverse mass is not positive. The same
   * ball given twice keeps its velocity.
   */
  method ResolveCollision(math: Math, b1: Ball, b2: Ball)
    requires math.Valid()
    requires b1.Valid() && b2.Valid()
    modifies b1`velocity, b2`velocity
    ensures b1.Valid() && b2.Valid()
    ensures var r := BallImpulse(math, b1.position, b2.position, old(b1.velocity), old(b2.velocity),
                                 b1.elasticity, b2.elasticity, b1.InverseMass(), b2.InverseMass());
      b1.velocity == r.first && b2.velocity == r.second
  {
    var normal := b1.position.Subtract(b2.position).SetMagnitude(math, 1.0);
    var relativeVelocity := b1.velocity.Subtract(b2.velocity);
    var separationVelocity := relativeVelocity.Dot(normal);
    var totalInverseMass := b1.InverseMass() + b2.InverseMass();
    if totalInverseMass <= 0.0 {
      return;
    }
    var impulse := Impulse(separationVelocity, Min(b1.elasticity, b2.elasticity), totalInverseMass);
    var impulseVector := normal.Multiply(impulse);
    if b1 == b2 {
      CoincidentCentresImpulse(math, b1.position, b1.velocity, b2.velocity, b1.elasticity, b2.elasticity, b1.InverseMass(), b2.InverseMass());
    }
    b1.velocity := b1.velocity.Add(impulseVector.Multiply(b1.InverseMass()));
    b2.velocity := b2.velocity.Add(impulseVector.Multiply(-b2.InverseMass()));
  }
}
