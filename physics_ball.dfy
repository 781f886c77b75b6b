/**
 * The ball of src/utils/physics-objects/Ball.ts, the one the collision
 * module works with. It differs from the ball of src/utils/Ball.ts only in
 * `reposition`, which adds a constant gravity to the velocity and then
 * advances the position a second time in the same tick.
 */
module PhysicsBalls {
  import opened Numerics
  import opened Vectors
  import Contact
  import Balls

  /** The velocity gravity adds on every tick (y grows downwards on the canvas). */
  const Gravity := Vec(0.0, 0.01)

  class Ball {
    var position: Vec
    var radius: real
    var mass: real
    var color: string
    var isPlayer: bool
    var speed: real
    var velocity: Vec
    var acceleration: Vec
    var friction: real
    var elasticity: real

    /** Every ball is at least `Balls.MinRadius` wide. */
    predicate Valid()
      reads this
    {
      Balls.MinRadius <= radius
    }

    /** The constructor with the source's defaults; the radius is raised to `Balls.MinRadius`. */
    constructor(position: Vec, r: real, mass: real := 1.0, color: string := "red", isPlayer: bool := false,
                velocity: Vec := Zero, speed: real := 0.05, friction: real := 0.01, elasticity: real := 1.0)
      ensures Valid()
      ensures this.position == position && radius == Max(r, Balls.MinRadius)
      ensures this.mass == mass && this.color == color && this.isPlayer == isPlayer
      ensures this.velocity == velocity && acceleration == Zero && this.speed == speed
      ensures this.friction == friction && this.elasticity == elasticity
    {
      this.position := position;
      radius := Max(r, Balls.MinRadius);
      this.mass := mass;
      this.color := color;
      this.isPlayer := isPlayer;
      this.velocity := velocity;
      acceleration := Zero;
      this.speed := speed;
      this.friction := friction;
      this.elasticity := elasticity;
    }

    /** The `inverseMass` getter: zero for a zero mass, otherwise the reciprocal. */
    function InverseMass(): (r: real)
      reads this
      ensures mass == 0.0 ==> r == 0.0
      ensures mass != 0.0 ==> r * mass == 1.0
    {
      Contact.InverseMass(mass)
    }

    /**
     * One tick: the same thrust, damping and advance as the plain ball, then
     * gravity is added to the velocity and the position advances again by
     * the new velocity.
     */
    method Reposition(math: Math)
      requires math.Valid() && Valid()
      modifies this`acceleration, this`velocity, this`position
      ensures Valid()
      ensures acceleration == Balls.Thrust(math, old(acceleration), speed)
      ensures velocity == old(velocity).Add(acceleration).Multiply(1.0 - friction).Add(Gravity)
      ensures position == old(position).Add(old(velocity).Add(acceleration).Multiply(1.0 - friction)).Add(velocity)
    {
      var a := Balls.Thrust(math, acceleration, speed);
      var v := velocity.Add(a).Multiply(1.0 - friction);
      var p := position.Add(v);
      // gravity
      v := v.Add(Gravity);
      p := p.Add(v);
      acceleration, velocity, position := a, v, p;
    }
  }
}
