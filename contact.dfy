/**
 * The collision response shared by src/utils/Ball.ts and src/utils/index.ts,
 * written once over the values it reads: positions, velocities, radii,
 * elasticities and inverse masses. Both files repeat the same arithmetic;
 * the ball classes there apply these results to their fields.
 */
module Contact {
  import opened Numerics
  import opened Vectors

  /** The two results of a ball–ball response: one per ball. */
  datatype Pair = Pair(first: Vec, second: Vec)

  /** The `inverseMass` getter: zero for a zero mass, otherwise the reciprocal. */
  function InverseMass(mass: real): (r: real)
    ensures mass == 0.0 ==> r == 0.0
    ensures mass != 0.0 ==> r * mass == 1.0
  {
    if mass == 0.0 then 0.0 else 1.0 / mass
  }

  /** The unit vector from the second centre towards the first (`setMagnitude(1)`); zero for coincident centres. */
  function Normal(math: Math, p1: Vec, p2: Vec): (n: Vec)
    requires math.Valid()
    ensures p1 == p2 ==> n == Zero
    ensures p1 != p2 ==> n.Dot(n) == 1.0 && n.Multiply(p1.Subtract(p2).Magnitude(math)) == p1.Subtract(p2)
  {
    NormalIsUnit(math, p1, p2);
    p1.Subtract(p2).SetMagnitude(math, 1.0)
  }

  lemma NormalIsUnit(math: Math, p1: Vec, p2: Vec)
    requires math.Valid()
    ensures var d := p1.Subtract(p2);
      && (p1 == p2 ==> d.SetMagnitude(math, 1.0) == Zero)
      && (p1 != p2 ==> d.SetMagnitude(math, 1.0).Dot(d.SetMagnitude(math, 1.0)) == 1.0)
      && (p1 != p2 ==> d.SetMagnitude(math, 1.0).Multiply(d.Magnitude(math)) == d)
  {
    var d := p1.Subtract(p2);
    assert p1 == p2 <==> d == Zero;
    MagnitudeZero(math, d);
    SetMagnitudeOneIsUnit(math, d);
    MagnitudeSquared(math, d.Unit(math));
  }

  /**
   * The ball–ball collision test: the centres are strictly closer than
   * `reach`, the sum of the radii. Stated without the square root: the
   * reach is positive and the squared distance is below its square.
   */
  function Overlapping(math: Math, p1: Vec, p2: Vec, reach: real): (r: bool)
    requires math.Valid()
    ensures r <==> 0.0 < reach && Square(p1.x - p2.x) + Square(p1.y - p2.y) < Square(reach)
  {
    SquareSign(p1.x - p2.x, p1.x - p2.x);
    SquareSign(p1.y - p2.y, p1.y - p2.y);
    if reach < 0.0 then p1.Distance(math, p2) < reach
    else
      math.SqrtLess(Square(p1.x - p2.x) + Square(p1.y - p2.y), reach);
      p1.Distance(math, p2) < reach
  }

  /**
   * Ball–ball `resolvePenetration`: each centre moves along the normal by
   * its share of the overlap depth, shares weighted by inverse mass. The
   * source divides by the total inverse mass without a guard.
   */
  function BallPenetration(math: Math, p1: Vec, p2: Vec, r1: real, r2: real, inv1: real, inv2: real): (r: Pair)
    requires math.Valid()
    requires inv1 + inv2 != 0.0
    ensures inv1 == 0.0 ==> r.first == p1
    ensures inv2 == 0.0 ==> r.second == p2
    ensures p1 == p2 ==> r == Pair(p1, p2)
  {
    var distanceVector := p1.Subtract(p2);
    var penetrationDepth := r1 + r2 - distanceVector.Magnitude(math);
    var penetrationResolution := distanceVector.SetMagnitude(math, 1.0).Multiply(penetrationDepth / (inv1 + inv2));
    MagnitudeZero(math, distanceVector);
    Pair(p1.Add(penetrationResolution.Multiply(inv1)), p2.Subtract(penetrationResolution.Multiply(inv2)))
  }

  /**
   * The scalar impulse that turns the separation velocity into `-e` times
   * itself, spread over the total inverse mass.
   */
  function Impulse(separationVelocity: real, e: real, totalInverseMass: real): (impulse: real)
    requires totalInverseMass != 0.0
    ensures impulse * totalInverseMass == -e * separationVelocity - separationVelocity
  {
    var newSeparationVelocity := -separationVelocity * e;
    var deltaVelocity := newSeparationVelocity - separationVelocity;
    deltaVelocity / totalInverseMass
  }

  /**
   * The impulse step of ball–ball `resolveCollision` along a given normal,
   * shared by inverse mass. The caller guarantees a positive total inverse mass.
   */
  function ImpulseAlong(normal: Vec, v1: Vec, v2: Vec, e: real, inv1: real, inv2: real): Pair
    requires 0.0 < inv1 + inv2
  {
    var impulseVector := normal.Multiply(Impulse(v1.Subtract(v2).Dot(normal), e, inv1 + inv2));
    Pair(v1.Add(impulseVector.Multiply(inv1)), v2.Add(impulseVector.Multiply(-inv2)))
  }

  /**
   * Ball–ball `resolveCollision`: nothing happens when the total inverse mass
   * is not positive; otherwise the impulse along the unit normal, with the
   * smaller of the two elasticities. A ball of zero inverse mass (an
   * immovable one) keeps its velocity; the other takes the whole change.
   */
  function BallImpulse(math: Math, p1: Vec, p2: Vec, v1: Vec, v2: Vec, e1: real, e2: real, inv1: real, inv2: real): (r: Pair)
    requires math.Valid()
    ensures inv1 == 0.0 ==> r.first == v1
    ensures inv2 == 0.0 ==> r.second == v2
    ensures inv1 + inv2 <= 0.0 ==> r == Pair(v1, v2)
    ensures 0.0 < inv1 + inv2 ==> r == ImpulseAlong(Normal(math, p1, p2), v1, v2, Min(e1, e2), inv1, inv2)
  {
    if inv1 + inv2 <= 0.0 then Pair(v1, v2)
    else ImpulseAlong(Normal(math, p1, p2), v1, v2, Min(e1, e2), inv1, inv2)
  }

  /** Ball–wall `resolvePenetration`: push the centre away from the closest point until it is one radius away. */
  function WallPenetration(math: Math, p: Vec, closest: Vec, radius: real): (r: Vec)
    requires math.Valid()
    ensures p == closest ==> r == p
  {
    var penetrationVector := p.Subtract(closest);
    MagnitudeZero(math, penetrationVector);
    p.Add(penetrationVector.Unit(math).Multiply(radius - penetrationVector.Magnitude(math)))
  }

  /**
   * The velocity update of ball–wall `resolveCollision` along a given
   * normal: the normal component is replaced by `-elasticity` times itself.
   */
  function ReflectAlong(normal: Vec, v: Vec, elasticity: real): Vec {
    var separationVelocity := v.Dot(normal);
    var newSeparationVelocity := -separationVelocity * elasticity;
    var vSeparationDifference := separationVelocity - newSeparationVelocity;
    v.Add(normal.Multiply(-vSeparationDifference))
  }

  /** Ball–wall `resolveCollision`: the reflection along the unit vector from the closest point to the centre. */
  function WallImpulse(math: Math, p: Vec, closest: Vec, v: Vec, elasticity: real): (r: Vec)
    requires math.Valid()
    ensures p == closest ==> r == v
    ensures r == ReflectAlong(p.Subtract(closest).Unit(math), v, elasticity)
  {
    MagnitudeZero(math, p.Subtract(closest));
    ReflectAlong(p.Subtract(closest).Unit(math), v, elasticity)
  }

  /**
   * After ball–ball penetration resolution the centres are `r1 + r2` apart
   * along the old normal: the balls just touch (for non-negative radii).
   */
  lemma PenetrationSeparates(math: Math, p1: Vec, p2: Vec, r1: real, r2: real, inv1: real, inv2: real)
    requires math.Valid()
    requires inv1 + inv2 != 0.0 && p1 != p2
    ensures var r := BallPenetration(math, p1, p2, r1, r2, inv1, inv2);
      && r.first.Subtract(r.second) == Normal(math, p1, p2).Multiply(r1 + r2)
      && r.first.Distance(math, r.second) == Abs(r1 + r2)
  {
    var r := BallPenetration(math, p1, p2, r1, r2, inv1, inv2);
    var d := p1.Subtract(p2);
    var m := d.Magnitude(math);
    var n := Normal(math, p1, p2);
    var depth := r1 + r2 - m;
    var k := depth / (inv1 + inv2);
    var resolution := n.Multiply(k);
    assert k * (inv1 + inv2) == depth;
    SubtractShifted(p1, p2, resolution.Multiply(inv1), resolution.Multiply(inv2));
    MultiplyDistributes(resolution, inv1, inv2);
    MultiplyDistributes(n, k, inv1 + inv2);
    assert n.Multiply(k).Multiply(inv1 + inv2) == n.Multiply(k * (inv1 + inv2));
    MultiplyDistributes(n, m, depth);
    calc {
      r.first.Subtract(r.second);
      d.Add(resolution.Multiply(inv1).Add(resolution.Multiply(inv2)));
      d.Add(resolution.Multiply(inv1 + inv2));
      d.Add(n.Multiply(k).Multiply(inv1 + inv2));
      d.Add(n.Multiply(k * (inv1 + inv2)));
      d.Add(n.Multiply(depth));
      n.Multiply(m).Add(n.Multiply(depth));
      n.Multiply(r1 + r2);
    }
    assert n.Magnitude(math) == 1.0;
    ScaledMagnitude(math, n, r1 + r2);
  }

  /**
   * Moving one point forward by `inv1` shares of `shift` and another back by
   * `inv2` shares keeps their weighted sum when the weights undo the shares.
   */
  lemma OpposedShiftsKeepWeightedSum(p1: Vec, p2: Vec, shift: Vec, inv1: real, inv2: real, m1: real, m2: real)
    requires inv1 * m1 == 1.0 && inv2 * m2 == 1.0
    ensures p1.Add(shift.Multiply(inv1)).Multiply(m1).Add(p2.Subtract(shift.Multiply(inv2)).Multiply(m2))
         == p1.Multiply(m1).Add(p2.Multiply(m2))
  {
    assert (p1.x + shift.x * inv1) * m1 == p1.x * m1 + shift.x * (inv1 * m1);
    assert (p1.y + shift.y * inv1) * m1 == p1.y * m1 + shift.y * (inv1 * m1);
    assert (p2.x - shift.x * inv2) * m2 == p2.x * m2 - shift.x * (inv2 * m2);
    assert (p2.y - shift.y * inv2) * m2 == p2.y * m2 - shift.y * (inv2 * m2);
  }

  /**
   * Penetration resolution keeps the centre of mass: with masses `m1`, `m2`
   * whose inverse masses are `inv1`, `inv2`, the mass-weighted sum of the
   * centres is the same before and after.
   */
  lemma PenetrationKeepsCentreOfMass(math: Math, p1: Vec, p2: Vec, r1: real, r2: real, m1: real, m2: real)
    requires math.Valid()
    requires m1 != 0.0 && m2 != 0.0 && InverseMass(m1) + InverseMass(m2) != 0.0
    ensures var r := BallPenetration(math, p1, p2, r1, r2, InverseMass(m1), InverseMass(m2));
      r.first.Multiply(m1).Add(r.second.Multiply(m2)) == p1.Multiply(m1).Add(p2.Multiply(m2))
  {
    var inv1, inv2 := InverseMass(m1), InverseMass(m2);
    var d := p1.Subtract(p2);
    var depth := r1 + r2 - d.Magnitude(math);
    var resolution := d.SetMagnitude(math, 1.0).Multiply(depth / (inv1 + inv2));
    assert BallPenetration(math, p1, p2, r1, r2, inv1, inv2)
        == Pair(p1.Add(resolution.Multiply(inv1)), p2.Subtract(resolution.Multiply(inv2)));
    assert inv1 * m1 == 1.0 && inv2 * m2 == 1.0;
    OpposedShiftsKeepWeightedSum(p1, p2, resolution, inv1, inv2, m1, m2);
  }

  /** Balls of equal, nonzero inverse mass each move by half the overlap depth, in opposite directions. */
  lemma PenetrationEqualShares(math: Math, p1: Vec, p2: Vec, r1: real, r2: real, inv: real)
    requires math.Valid()
    requires inv != 0.0
    ensures var r := BallPenetration(math, p1, p2, r1, r2, inv, inv);
      var half := Normal(math, p1, p2).Multiply((r1 + r2 - p1.Distance(math, p2)) / 2.0);
      r.first == p1.Add(half) && r.second == p2.Subtract(half)
  {
    var d := p1.Subtract(p2);
    var depth := r1 + r2 - d.Magnitude(math);
    var n := Normal(math, p1, p2);
    var k := depth / (inv + inv);
    assert k * inv == depth / 2.0;
    MultiplyDistributes(n, k, inv);
  }

  /**
   * Adding `inv1` shares of `j` to one velocity and `-inv2` shares to the
   * other changes their difference by `inv1 + inv2` shares.
   */
  lemma SharedImpulseDifference(v1: Vec, v2: Vec, j: Vec, inv1: real, inv2: real)
    ensures v1.Add(j.Multiply(inv1)).Subtract(v2.Add(j.Multiply(-inv2))) == v1.Subtract(v2).Add(j.Multiply(inv1 + inv2))
  {
  }

  /**
   * Restitution: along a unit normal, the separation velocity after the
   * impulse is `-e` times the one before.
   */
  lemma ImpulseRestitution(n: Vec, v1: Vec, v2: Vec, e: real, inv1: real, inv2: real)
    requires 0.0 < inv1 + inv2 && n.Dot(n) == 1.0
    ensures var r := ImpulseAlong(n, v1, v2, e, inv1, inv2);
      r.first.Subtract(r.second).Dot(n) == -e * v1.Subtract(v2).Dot(n)
  {
    var sep := v1.Subtract(v2).Dot(n);
    var delta := -e * sep - sep;
    var total := inv1 + inv2;
    var impulse := Impulse(sep, e, total);
    var j := n.Multiply(impulse);
    var r := ImpulseAlong(n, v1, v2, e, inv1, inv2);
    SharedImpulseDifference(v1, v2, j, inv1, inv2);
    MultiplyDistributes(n, impulse, total);
    assert j.Multiply(total) == n.Multiply(delta);
    DotLinear(v1.Subtract(v2), n.Multiply(delta), n, delta);
    DotLinear(n, n, n, delta);
    calc {
      r.first.Subtract(r.second).Dot(n);
      v1.Subtract(v2).Add(n.Multiply(delta)).Dot(n);
      sep + n.Multiply(delta).Dot(n);
      sep + delta * n.Dot(n);
      -e * sep;
    }
  }

  /**
   * The impulse acts along the normal only: in any direction perpendicular
   * to the normal both velocities keep their components.
   */
  lemma ImpulseKeepsTangent(n: Vec, v1: Vec, v2: Vec, e: real, inv1: real, inv2: real, t: Vec)
    requires 0.0 < inv1 + inv2 && n.Dot(t) == 0.0
    ensures var r := ImpulseAlong(n, v1, v2, e, inv1, inv2);
      r.first.Dot(t) == v1.Dot(t) && r.second.Dot(t) == v2.Dot(t)
  {
    var impulse := Impulse(v1.Subtract(v2).Dot(n), e, inv1 + inv2);
    var j := n.Multiply(impulse);
    DotLinear(n, n, t, impulse);
    DotLinear(j, j, t, inv1);
    DotLinear(j, j, t, -inv2);
    DotLinear(v1, j.Multiply(inv1), t, 0.0);
    DotLinear(v2, j.Multiply(-inv2), t, 0.0);
  }

  /**
   * Momentum is conserved: with masses `m1`, `m2` whose inverse masses are
   * `inv1`, `inv2`, the mass-weighted sum of the velocities is unchanged.
   */
  lemma ImpulseConservesMomentum(n: Vec, v1: Vec, v2: Vec, e: real, m1: real, m2: real)
    requires m1 != 0.0 && m2 != 0.0 && 0.0 < InverseMass(m1) + InverseMass(m2)
    ensures var r := ImpulseAlong(n, v1, v2, e, InverseMass(m1), InverseMass(m2));
      r.first.Multiply(m1).Add(r.second.Multiply(m2)) == v1.Multiply(m1).Add(v2.Multiply(m2))
  {
    var inv1, inv2 := InverseMass(m1), InverseMass(m2);
    var j := n.Multiply(Impulse(v1.Subtract(v2).Dot(n), e, inv1 + inv2));
    assert v2.Add(j.Multiply(-inv2)) == v2.Subtract(j.Multiply(inv2));
    assert inv1 * m1 == 1.0 && inv2 * m2 == 1.0;
    OpposedShiftsKeepWeightedSum(v1, v2, j, inv1, inv2, m1, m2);
  }

  /**
   * A perfectly elastic impulse between equal masses exchanges the velocity
   * components along the unit normal.
   */
  lemma EqualMassElasticExchange(n: Vec, v1: Vec, v2: Vec, inv: real)
    requires 0.0 < inv && n.Dot(n) == 1.0
    ensures var r := ImpulseAlong(n, v1, v2, 1.0, inv, inv);
      r.first.Dot(n) == v2.Dot(n) && r.second.Dot(n) == v1.Dot(n)
  {
    var sep := v1.Subtract(v2).Dot(n);
    var impulse := Impulse(sep, 1.0, inv + inv);
    assert impulse * inv == -sep;
    var j := n.Multiply(impulse);
    DotLinear(n, n, n, impulse);
    DotLinear(j, j, n, inv);
    DotLinear(j, j, n, -inv);
    DotLinear(v1, j.Multiply(inv), n, 0.0);
    DotLinear(v2, j.Multiply(-inv), n, 0.0);
    DotLinear(v1, v2, n, 0.0);
  }

  /** Ball–ball restitution stated on `resolveCollision` itself, for distinct centres. */
  lemma BallImpulseRestitution(math: Math, p1: Vec, p2: Vec, v1: Vec, v2: Vec, e1: real, e2: real, inv1: real, inv2: real)
    requires math.Valid()
    requires p1 != p2 && 0.0 < inv1 + inv2
    ensures var r := BallImpulse(math, p1, p2, v1, v2, e1, e2, inv1, inv2);
      var n := Normal(math, p1, p2);
      r.first.Subtract(r.second).Dot(n) == -Min(e1, e2) * v1.Subtract(v2).Dot(n)
  {
    ImpulseRestitution(Normal(math, p1, p2), v1, v2, Min(e1, e2), inv1, inv2);
  }

  /** Balls with coincident centres have no normal, so `resolveCollision` leaves both velocities as they were. */
  lemma CoincidentCentresImpulse(math: Math, p: Vec, v1: Vec, v2: Vec, e1: real, e2: real, inv1: real, inv2: real)
    requires math.Valid()
    ensures BallImpulse(math, p, p, v1, v2, e1, e2, inv1, inv2) == Pair(v1, v2)
  {
    if 0.0 < inv1 + inv2 {
      var j := Zero.Multiply(Impulse(v1.Subtract(v2).Dot(Zero), Min(e1, e2), inv1 + inv2));
      assert j == Zero;
    }
  }

  /** Reflection along a unit normal: the normal component becomes `-elasticity` times the old one. */
  lemma ReflectionReverses(n: Vec, v: Vec, elasticity: real)
    requires n.Dot(n) == 1.0
    ensures ReflectAlong(n, v, elasticity).Dot(n) == -elasticity * v.Dot(n)
  {
    var sep := v.Dot(n);
    var difference := sep - -sep * elasticity;
    DotLinear(n, n, n, -difference);
    DotLinear(v, n.Multiply(-difference), n, 0.0);
  }

  /** Reflection leaves every component perpendicular to the normal unchanged. */
  lemma ReflectionKeepsTangent(n: Vec, v: Vec, elasticity: real, t: Vec)
    requires n.Dot(t) == 0.0
    ensures ReflectAlong(n, v, elasticity).Dot(t) == v.Dot(t)
  {
    var sep := v.Dot(n);
    var difference := sep - -sep * elasticity;
    DotLinear(n, n, t, -difference);
    DotLinear(v, n.Multiply(-difference), t, 0.0);
  }

  /**
   * Ball–wall penetration resolution leaves the centre exactly `|radius|`
   * from the closest point, on the side it was on.
   */
  lemma WallPenetrationTouches(math: Math, p: Vec, closest: Vec, radius: real)
    requires math.Valid()
    requires p != closest
    ensures var r := WallPenetration(math, p, closest, radius);
      && r.Subtract(closest) == p.Subtract(closest).Unit(math).Multiply(radius)
      && r.Distance(math, closest) == Abs(radius)
  {
    var d := p.Subtract(closest);
    var m := d.Magnitude(math);
    var u := d.Unit(math);
    MagnitudeZero(math, d);
    assert u.Multiply(m) == d;
    MultiplyDistributes(u, m, radius - m);
    calc {
      WallPenetration(math, p, closest, radius).Subtract(closest);
      p.Add(u.Multiply(radius - m)).Subtract(closest);
      d.Add(u.Multiply(radius - m));
      u.Multiply(m).Add(u.Multiply(radius - m));
      u.Multiply(radius);
    }
    ScaledMagnitude(math, u, radius);
  }

  /** Ball–wall `resolveCollision` with distinct centre and closest point: the velocity is reflected along the unit normal. */
  lemma WallImpulseReflects(math: Math, p: Vec, closest: Vec, v: Vec, elasticity: real, t: Vec)
    requires math.Valid()
    requires p != closest
    ensures var n := p.Subtract(closest).Unit(math);
      && WallImpulse(math, p, closest, v, elasticity).Dot(n) == -elasticity * v.Dot(n)
      && (n.Dot(t) == 0.0 ==> WallImpulse(math, p, closest, v, elasticity).Dot(t) == v.Dot(t))
  {
    var n := p.Subtract(closest).Unit(math);
    MagnitudeZero(math, p.Subtract(closest));
    MagnitudeSquared(math, n);
    assert Square(n.Magnitude(math)) == 1.0;
    ReflectionReverses(n, v, elasticity);
    if n.Dot(t) == 0.0 {
      ReflectionKeepsTangent(n, v, elasticity, t);
    }
  }
}

