/**
 * The capsule of src/utils/physics-objects/Capsule.ts: a segment with round
 * ends that translates like a ball and also turns. Every tick it rebuilds
 * its endpoints from its centre, its turned direction and its fixed length,
 * so the capsule keeps its length and stays centred on its position.
 */
module Capsules {
  import opened Numerics
  import opened Vectors
  import opened Matrices

  class Capsule {
    var startPosition: Vec
    var endPosition: Vec
    var r: real
    var position: Vec
    var length: real
    var direction: Vec
    var speed: real
    var rotationSpeed: real
    var acceleration: Vec
    var velocity: Vec
    var friction: real
    var initialDirection: Vec
    var angle: real
    var color: string

    /** The shape invariant (see `Shape`). */
    predicate Valid()
      reads this
    {
      Shape(startPosition, endPosition, position, length, initialDirection)
    }

    /** The constructor with the source's defaults; `initialAngle` only serves drawing and is not kept. */
    constructor(math: Math, startPosition: Vec, endPosition: Vec, r: real, color: string := "royalblue")
      requires math.Valid()
      ensures Valid()
      ensures this.startPosition == startPosition && this.endPosition == endPosition
      ensures position == startPosition.Add(endPosition).Divide(2.0)
      ensures length == startPosition.Distance(math, endPosition)
      ensures direction == startPosition.Subtract(endPosition).Unit(math)
      ensures initialDirection == endPosition.Subtract(startPosition).Unit(math)
      ensures direction == initialDirection.Multiply(-1.0)
      ensures this.r == r && this.color == color
      ensures speed == 0.1 && rotationSpeed == 0.0 && friction == 0.05 && angle == 0.0
      ensures acceleration == Zero && velocity == Zero
    {
      this.startPosition := startPosition;
      this.endPosition := endPosition;
      position := startPosition.Add(endPosition).Divide(2.0);
      length := startPosition.Distance(math, endPosition);
      direction := startPosition.Subtract(endPosition).Unit(math);
      this.r := r;
      this.color := color;
      initialDirection := endPosition.Subtract(startPosition).Unit(math);
      speed := 0.1;
      rotationSpeed := 0.0;
      acceleration := Zero;
      velocity := Zero;
      friction := 0.05;
      angle := 0.0;
      new;
      UnitOfOpposite(math, startPosition, endPosition);
      InitialShape(math, startPosition, endPosition);
    }

    /**
     * One tick: translate like a ball (thrust along the acceleration's
     * direction, damping, advance), turn by the rotation speed and damp it,
     * then turn the initial direction through a rotation matrix and rebuild
     * the endpoints around the new centre.
     */
    method Reposition(math: Math)
      requires math.Valid() && Valid()
      modifies this`acceleration, this`velocity, this`position, this`angle, this`rotationSpeed
      modifies this`direction, this`startPosition, this`endPosition
      ensures Valid()
      ensures acceleration == old(acceleration).Unit(math).Multiply(speed)
      ensures velocity == old(velocity).Add(acceleration).Multiply(1.0 - friction)
      ensures position == old(position).Add(velocity)
      ensures angle == old(angle) + old(rotationSpeed)
      ensures rotationSpeed == Damped(old(rotationSpeed), friction)
      ensures direction == Rotation(math, angle).Apply(initialDirection)
      ensures startPosition == position.Add(direction.Multiply(-length / 2.0))
      ensures endPosition == position.Add(direction.Multiply(length / 2.0))
    {
      Translate(math);
      Turn(math);
    }

    /** The translation half of `reposition`: thrust along the acceleration's direction, damping, advance. */
    method Translate(math: Math)
      requires math.Valid()
      modifies this`acceleration, this`velocity, this`position
      ensures acceleration == old(acceleration).Unit(math).Multiply(speed)
      ensures velocity == old(velocity).Add(acceleration).Multiply(1.0 - friction)
      ensures position == old(position).Add(velocity)
    {
      var a := acceleration.Unit(math).Multiply(speed);
      var v := velocity.Add(a).Multiply(1.0 - friction);
      acceleration, velocity, position := a, v, position.Add(v);
    }

    /**
     * The turning half of `reposition`: advance the angle, damp the rotation
     * speed, turn the initial direction by the new angle and rebuild the
     * endpoints around the current centre.
     */
    method Turn(math: Math)
      requires math.Valid() && Rigid(length, initialDirection)
      modifies this`angle, this`rotationSpeed, this`direction, this`startPosition, this`endPosition
      ensures Valid()
      ensures angle == old(angle) + old(rotationSpeed)
      ensures rotationSpeed == Damped(old(rotationSpeed), friction)
      ensures direction == Rotation(math, angle).Apply(initialDirection)
      ensures startPosition == position.Add(direction.Multiply(-length / 2.0))
      ensures endPosition == position.Add(direction.Multiply(length / 2.0))
    {
      var turned := angle + rotationSpeed;
      var d := TurnedDirection(math, turned, initialDirection);
      var s := position.Add(d.Multiply(-length / 2.0));
      var e := position.Add(d.Multiply(length / 2.0));
      RebuiltKeepsShape(math, length, initialDirection, position, turned);
      assert Shape(s, e, position, length, initialDirection);
      angle, rotationSpeed := turned, Damped(rotationSpeed, friction);
      direction, startPosition, endPosition := d, s, e;
    }
  }

  /** A rotation speed after one tick of friction. */
  function Damped(rotationSpeed: real, friction: real): (r: real)
    ensures 0.0 <= friction <= 1.0 ==> Abs(r) <= Abs(rotationSpeed)
  {
    rotationSpeed * (1.0 - friction)
  }

  /**
   * The direction `reposition` derives: a rotation matrix for the angle,
   * multiplied with the initial direction (as a fresh vector object).
   */
  method TurnedDirection(math: Math, angle: real, initialDirection: Vec) returns (d: Vec)
    ensures d == Rotation(math, angle).Apply(initialDirection)
  {
    var rotationMatrix := RotateMatrix(math, angle);
    var initial := new Vector(initialDirection.x, initialDirection.y);
    var rotated := rotationMatrix.MultiplyVector(initial);
    d := rotated.Value();
  }

  /**
   * The shape of a capsule: its position is the midpoint of the endpoints,
   * the endpoints are `length` apart (stated on squares, `length` being
   * non-negative), and the direction it turns from has length one unless the
   * capsule has length zero.
   */
  predicate Shape(startPosition: Vec, endPosition: Vec, position: Vec, length: real, initialDirection: Vec) {
    && startPosition.Add(endPosition) == position.Multiply(2.0)
    && endPosition.Subtract(startPosition).Dot(endPosition.Subtract(startPosition)) == Square(length)
    && Rigid(length, initialDirection)
  }

  /** The part of the shape no tick changes: a non-negative length and, unless it is zero, a unit initial direction. */
  predicate Rigid(length: real, initialDirection: Vec) {
    0.0 <= length && (length == 0.0 || initialDirection.Dot(initialDirection) == 1.0)
  }

  /** In a capsule of any shape the endpoints are exactly `length` apart. */
  lemma ShapeKeepsLength(math: Math, startPosition: Vec, endPosition: Vec, position: Vec, length: real, initialDirection: Vec)
    requires math.Valid()
    requires Shape(startPosition, endPosition, position, length, initialDirection)
    ensures startPosition.Distance(math, endPosition) == length
    ensures position == startPosition.Add(endPosition).Multiply(0.5)
  {
    var w := endPosition.Subtract(startPosition);
    DistanceSymmetricAndDefinite(math, startPosition, endPosition);
    MagnitudeIs(math, w, length);
  }

  /** A vector scaled by `k` has `k²` times the squared length. */
  lemma ScaledSelfDot(d: Vec, k: real)
    ensures d.Multiply(k).Dot(d.Multiply(k)) == Square(k) * d.Dot(d)
  {
    var w := d.Multiply(k);
    DotLinear(d, d, w, k);
    DotLinear(d, d, d, k);
    DotSymmetricBilinear(d, w, w, 0.0, 0.0);
    calc {
      w.Dot(w);
      k * d.Dot(w);
      k * w.Dot(d);
      k * (k * d.Dot(d));
      Square(k) * d.Dot(d);
    }
  }

  /** A rotation keeps the squared length of the vector it turns. */
  lemma RotationKeepsSelfDot(math: Math, angle: real, v: Vec)
    requires math.Valid()
    ensures Rotation(math, angle).Apply(v).Dot(Rotation(math, angle).Apply(v)) == v.Dot(v)
  {
    RotationPreservesMagnitude(math, angle, v);
    MagnitudeSquared(math, Rotation(math, angle).Apply(v));
    MagnitudeSquared(math, v);
  }

  /**
   * Rebuilding the endpoints around any new centre from the turned initial
   * direction keeps the shape: the capsule neither stretches nor shrinks.
   */
  lemma RebuiltKeepsShape(math: Math, length: real, initialDirection: Vec, newPosition: Vec, angle: real)
    requires math.Valid()
    requires Rigid(length, initialDirection)
    ensures var d := Rotation(math, angle).Apply(initialDirection);
      Shape(newPosition.Add(d.Multiply(-length / 2.0)), newPosition.Add(d.Multiply(length / 2.0)), newPosition, length, initialDirection)
  {
    var d := Rotation(math, angle).Apply(initialDirection);
    RotationKeepsSelfDot(math, angle, initialDirection);
    EndpointsAroundCentre(newPosition, d, length);
    ScaledSelfDot(d, length);
    if length != 0.0 {
      MulLeft(d.Dot(d), 1.0, Square(length));
    }
  }

  /** The constructor's endpoints, midpoint and length make a capsule shape. */
  lemma InitialShape(math: Math, s: Vec, e: Vec)
    requires math.Valid()
    ensures Shape(s, e, s.Add(e).Divide(2.0), s.Distance(math, e), e.Subtract(s).Unit(math))
  {
    var w := e.Subtract(s);
    var u := w.Unit(math);
    var length := s.Distance(math, e);
    MidpointDoubled(s.Add(e));
    DistanceSymmetricAndDefinite(math, s, e);
    assert length == w.Magnitude(math);
    MagnitudeSquared(math, w);
    MagnitudeZero(math, w);
    if length != 0.0 {
      MagnitudeSquared(math, u);
    }
  }

  /** Halving a vector and doubling it gives it back. */
  lemma MidpointDoubled(v: Vec)
    ensures v == v.Divide(2.0).Multiply(2.0)
  {
  }

  /** Endpoints rebuilt from a centre, a direction and a length sit symmetrically about the centre, `length` times the direction apart. */
  lemma EndpointsAroundCentre(position: Vec, direction: Vec, length: real)
    ensures var s := position.Add(direction.Multiply(-length / 2.0));
      var e := position.Add(direction.Multiply(length / 2.0));
      && s.Add(e) == position.Multiply(2.0)
      && e.Subtract(s) == direction.Multiply(length)
  {
    assert direction.x * (length / 2.0) - direction.x * (-length / 2.0) == direction.x * length;
    assert direction.y * (length / 2.0) - direction.y * (-length / 2.0) == direction.y * length;
  }
}
