# vue-physics kernel in Dafny

This project models the physics kernel of vue-physics, a small 2D sandbox in
which balls, walls and capsules move on a canvas and bounce off each other. It
covers:

- the vector and matrix algebra (`src/utils/Vector.ts`, `src/utils/Matrix.ts`);
- the bodies: the plain ball of `src/utils/Ball.ts`, the gravity ball of
  `src/utils/physics-objects/Ball.ts`, the wall and the capsule;
- the collision functions of `src/utils/index.ts`.

The proofs cover:

- the physical properties of the collision response: restitution along
  the normal, unchanged tangential velocity, conserved momentum, a fixed
  centre of mass, and touching after penetration resolution;
- the closest point of a wall: it lies on the segment, is perpendicular and
  is the nearest point;
- the capsule keeping its length and staying centred as it turns;
- rotation preserving length and undoing itself.

Modules, one per file:

| file | module | models |
|---|---|---|
| `numerics.dfy` | `Numerics` | JavaScript's `Math` object (square root, sine, cosine and their laws), `max`, `min`, `abs` |
| `vector.dfy` | `Vectors` | `Vector`: the value `Vec` with its pure operations, and the mutable object `Vector` |
| `matrix.dfy` | `Matrices` | `Matrix` over a 2D array, `rotateMatrix`, the 2x2 block it multiplies with |
| `wall.dfy` | `Walls` | `Wall` and its `unit` getter |
| `contact.dfy` | `Contact` | the arithmetic of the collision functions on values: overlap, penetration shifts, impulses, wall reflection |
| `ball.dfy` | `Balls` | `src/utils/Ball.ts`: the ball class and the file's own ball–ball collision functions |
| `physics_ball.dfy` | `PhysicsBalls` | `src/utils/physics-objects/Ball.ts`: the ball with gravity |
| `capsule.dfy` | `Capsules` | `Capsule`: the constructor and `reposition` |
| `collisions.dfy` | `Collisions` | `src/utils/index.ts`: `findClosestPoint`, `isColliding`, `resolvePenetration`, `resolveCollision` |

How the model is built:

- **Numbers.** Numbers are reals.
- **`Math` is a parameter.** `Math.sqrt`, `Math.sin` and `Math.cos` cannot be
  defined over the reals, so every member that calls them takes a `Math`
  value. Its `Valid()` states the laws the kernel relies on: the square root
  of a non-negative number is the non-negative number whose square it is;
  cos² + sin² = 1; cos 0 = 1 and sin 0 = 0; cosine is even and sine is odd.
- **Moving bodies are classes; the wall is a value.** The two balls and the
  capsule are classes whose methods update fields in place, under
  field-level `modifies` frames. Each ball keeps the invariant `Valid()`
  (radius at least 10): the constructor establishes it, and every method that
  moves a ball preserves it. A wall is never changed after it is built, so it
  is the immutable datatype `Walls.Wall`, and it has no methods.
- **Vector fields hold `Vec` values.** The kernel never mutates a body's
  vector object in place: every update builds a new vector and assigns it.
  The mutable `Vector` class is still modelled, because `Matrix.multiplyVector`
  uses `set`.
- **The second collision argument is a datatype.** In `index.ts` it is
  `Ball | Wall`, dispatched by `instanceof`; here it is the datatype
  `Collisions.Obstacle`.
- **Methods are tied to functions.** Each method's `ensures` gives its new
  state as a value, and the properties are proved about that value.
  - The collision methods (`Balls.ResolvePenetration`,
    `Balls.ResolveCollision`, `Collisions.ResolvePenetration`,
    `Collisions.ResolveCollision`) are equated with functions in `Contact`.
  - The `Reposition` methods are stated with `Vec` expressions, `Balls.Thrust`,
    `Capsules.Damped` and `Matrices.Rotation`. `Capsules.TurnedDirection` is
    where `Turn`'s body builds the new direction through the `Matrix` methods.
  - The `Vector` and `Matrix` methods are stated with `Vec` and `Mat2`.

Where the code departs from what its names suggest, the model follows the code:

- `limit`'s name and its call to `setMagnitude` suggest a clamp in place, but
  the code throws the clamped vector away (see Findings).
- `reposition` reads as one step of motion, but the gravity ball's
  `reposition` advances its position twice in one tick. It moves once with
  the damped velocity and again after gravity is added. This is modelled as
  written (`PhysicsBalls.Ball.Reposition`).
- The capsule constructor sets `direction` from the end towards the start,
  while `reposition` turns the initial direction, which points from the start
  towards the end. The direction therefore flips on the first tick. Both are
  modelled as written.

## Model

| member | source | states |
|---|---|---|
| Vectors.Vector.constructor | src/utils/Vector.ts:5-8 | the new vector holds the given coordinates |
| Vectors.Vector.Set | src/utils/Vector.ts:10-14 | both coordinates are overwritten in place and the same object is returned |
| Vectors.Vector.Add | src/utils/Vector.ts:16-18 | a fresh vector holding the coordinate-wise sum |
| Vectors.Vector.Subtract | src/utils/Vector.ts:20-22 | a fresh vector holding the coordinate-wise difference |
| Vectors.Vector.Multiply | src/utils/Vector.ts:24-26 | a fresh vector holding the scaled coordinates |
| Vectors.Vector.Divide | src/utils/Vector.ts:28-30 | a fresh vector holding the coordinates divided by a nonzero scalar |
| Vectors.Vec.Add | src/utils/Vector.ts:16-18 | the coordinate-wise sum; subtracting the added vector gives the original back (`AddSubtract`), and scaled copies of one vector add by adding their scalars (`MultiplyDistributes`) |
| Vectors.Vec.Subtract | src/utils/Vector.ts:20-22 | the coordinate-wise difference, the inverse of `Add` (`AddSubtract`); shifting both operands shifts the difference by their difference (`SubtractShifted`) |
| Vectors.Vec.Multiply | src/utils/Vector.ts:24-26 | scaling by a scalar; it distributes over a sum of scalars and composes by product (`MultiplyDistributes`), multiplies the magnitude by the scalar's absolute value (`ScaledMagnitude`) and is undone by dividing (`MultiplyDivide`) |
| Vectors.Vec.Divide | src/utils/Vector.ts:28-30 | division by a nonzero scalar, which undoes multiplication by it (`MultiplyDivide`) |
| Vectors.AddSubtract | src/utils/Vector.ts:16-22 | subtracting what was added gives the vector back |
| Vectors.MultiplyDivide | src/utils/Vector.ts:24-30 | dividing by the nonzero scalar just multiplied by gives the vector back |
| Vectors.MultiplyDistributes | src/utils/Vector.ts:16-26 | scaling distributes over a sum of scalars and composes by product |
| Vectors.Vec.Distance | src/utils/Vector.ts:32-36 | the distance is non-negative and is the magnitude of the difference |
| Vectors.DistanceSymmetricAndDefinite | src/utils/Vector.ts:32-36 | distance is symmetric and is zero exactly between equal points |
| Vectors.Vec.Magnitude | src/utils/Vector.ts:38-40 | the magnitude is non-negative |
| Vectors.MagnitudeIs | src/utils/Vector.ts:38-40 | the magnitude is the one non-negative number whose square is x² + y² |
| Vectors.MagnitudeSquared | src/utils/Vector.ts:38-40 | the squared magnitude is the vector's dot product with itself |
| Vectors.MagnitudeZero | src/utils/Vector.ts:38-40 | the magnitude is zero exactly for the zero vector |
| Vectors.ScaledMagnitude | src/utils/Vector.ts:24-40 | scaling by k multiplies the magnitude by abs(k) |
| Vectors.Vec.Unit | src/utils/Vector.ts:42-45 | a zero-magnitude vector comes back unchanged; any other becomes a vector of magnitude one that scales back to it |
| Vectors.DivideByMagnitude | src/utils/Vector.ts:42-45 | dividing by a nonzero magnitude gives magnitude one and scales back to the vector |
| Vectors.UnitOfOpposite | src/utils/Vector.ts:42-45 | the unit of b − a is the negated unit of a − b |
| Vectors.Vector.Unit | src/utils/Vector.ts:42-45 | the receiver itself at magnitude zero, otherwise a fresh vector holding the unit value |
| Vectors.Vec.SetMagnitude | src/utils/Vector.ts:47-53 | a zero vector is unchanged; otherwise the result has magnitude abs(m) and points along (m ≥ 0) or against (m < 0) the vector |
| Vectors.RescaledMagnitude | src/utils/Vector.ts:47-53 | scaling by m / magnitude gives magnitude abs(m) and a dot product m · magnitude with the vector |
| Vectors.SetMagnitudeOneIsUnit | src/utils/Vector.ts:42-53 | `setMagnitude(1)` and `unit` agree on every vector |
| Vectors.Vector.SetMagnitude | src/utils/Vector.ts:47-53 | the receiver itself at magnitude zero, otherwise a fresh vector holding the rescaled value |
| Vectors.Vector.Limit | src/utils/Vector.ts:55-60 | as written: the receiver comes back with its coordinates unchanged, whatever the maximum |
| Vectors.LimitCounterexample | src/utils/Vector.ts:55-60 | (3, 4) has magnitude 5, above the maximum 1, yet the intended limit has magnitude 1 |
| Vectors.Vec.Limit | src/utils/Vector.ts:55-60 | intended: a vector within the maximum is unchanged; a longer one is cut to magnitude at most the (non-negative) maximum along its own direction |
| Vectors.Vec.Normalize | src/utils/Vector.ts:62-66 | the same guarded division as `unit`: equal to `Unit` on every vector |
| Vectors.Vector.Normalize | src/utils/Vector.ts:62-66 | the receiver itself at magnitude zero, otherwise a fresh vector holding the unit value |
| Vectors.Vec.Dot | src/utils/Vector.ts:68-70 | the dot product: symmetric and bilinear (`DotSymmetricBilinear`, `DotLinear`); a vector's dot product with itself is its squared magnitude (`MagnitudeSquared`) |
| Vectors.DotSymmetricBilinear | src/utils/Vector.ts:68-70 | the dot product is symmetric and linear in its first argument |
| Vectors.DotLinear | src/utils/Vector.ts:68-70 | the dot product distributes over sums and differences and pulls out scalars |
| Vectors.ThrustMagnitude | src/utils/physics-objects/Capsule.ts:85 | the unit of a nonzero vector times `speed` has magnitude abs(speed); a zero vector stays zero |
| Matrices.Matrix.constructor | src/utils/Matrix.ts:8-13 | a rows × columns matrix with every entry zero |
| Matrices.Matrix.GenerateMatrix | src/utils/Matrix.ts:15-22 | the grid is refilled with zeros for the current shape, which is unchanged |
| Matrices.Matrix.MultiplyVector | src/utils/Matrix.ts:24-33 | a fresh vector holding the upper-left 2x2 block applied to the argument |
| Matrices.Mat2.Apply | src/utils/Matrix.ts:27-30 | the 2x2 block times a column vector, which is linear (`ApplyLinear`); `Matrix.MultiplyVector` returns exactly this value |
| Matrices.ApplyLinear | src/utils/Matrix.ts:24-33 | multiplying by the block is linear |
| Matrices.RotateMatrix | src/utils/Matrix.ts:36-45 | a fresh 2x2 matrix holding cos, −sin, sin, cos of the angle |
| Matrices.Rotation | src/utils/Matrix.ts:39-42 | the four entries `rotateMatrix` writes; the rotation keeps magnitudes (`RotationPreservesMagnitude`), is undone by the opposite angle (`RotationRoundTrip`) and is the identity at angle zero (`RotationByZero`) |
| Matrices.RotationByZero | src/utils/Matrix.ts:36-45 | the rotation by zero leaves every vector in place |
| Matrices.RotationPreservesMagnitude | src/utils/Matrix.ts:36-45 | a rotation keeps the magnitude of every vector |
| Matrices.RotationRoundTrip | src/utils/Matrix.ts:36-45 | rotating by an angle and then by its opposite gives the vector back |
| Walls.NewWall | src/utils/physics-objects/Wall.ts:8-12 | the wall holds its endpoints and the colour, white by default |
| Walls.Wall.Unit | src/utils/physics-objects/Wall.ts:24-26 | zero for a degenerate wall, otherwise magnitude one; times the wall's length it is the wall vector |
| Walls.SwappedWallUnit | src/utils/physics-objects/Wall.ts:24-26 | swapping the endpoints negates the unit |
| Walls.UnitAlongWall | src/utils/physics-objects/Wall.ts:24-26 | the unit's dot product with the wall vector is the wall's length, and with itself is one (zero for a degenerate wall) |
| Contact.InverseMass | src/utils/physics-objects/Ball.ts:50-53 | zero for a zero mass, otherwise the reciprocal (its product with the mass is one) |
| Contact.Normal | src/utils/index.ts:49 | the normal is the unit vector from the second centre to the first (zero for coincident centres) |
| Contact.NormalIsUnit | src/utils/index.ts:49 | `setMagnitude(1)` of the centre difference is zero for coincident centres; otherwise its self dot product is one and it scales back to the difference |
| Contact.Overlapping | src/utils/index.ts:12-14 | true exactly when the reach is positive and the squared centre distance is below its square |
| Contact.BallPenetration | src/utils/index.ts:21-35 | a body with zero inverse mass stays put; coincident centres stay where they are |
| Contact.PenetrationSeparates | src/utils/index.ts:21-35 | afterwards the centres are r1 + r2 apart along the old normal: the balls just touch |
| Contact.PenetrationKeepsCentreOfMass | src/utils/index.ts:21-35 | the mass-weighted sum of the centres is unchanged |
| Contact.PenetrationEqualShares | src/utils/index.ts:21-35 | with equal inverse masses each ball moves half the overlap along the normal |
| Contact.Impulse | src/utils/index.ts:51-60 | the impulse times the total inverse mass is the change −e·s − s of the separation velocity s |
| Contact.ImpulseAlong | src/utils/index.ts:60-66 | the impulse shared by inverse mass along a normal (also src/utils/Ball.ts:154-158); along a unit normal it reverses the relative normal velocity scaled by the elasticity (`ImpulseRestitution`), keeps tangential velocities (`ImpulseKeepsTangent`) and conserves momentum (`ImpulseConservesMomentum`) |
| Contact.BallImpulse | src/utils/index.ts:48-67 | a ball of zero inverse mass (immovable) keeps its velocity; nothing changes when the total inverse mass is not positive; otherwise the impulse along the normal with the smaller elasticity |
| Contact.ImpulseRestitution | src/utils/index.ts:48-67 | the new relative normal velocity is −e times the old one |
| Contact.BallImpulseRestitution | src/utils/index.ts:48-67 | for distinct centres the ball–ball response reverses the relative normal velocity, scaled by the smaller elasticity |
| Contact.ImpulseKeepsTangent | src/utils/index.ts:48-67 | velocity components perpendicular to the normal are unchanged |
| Contact.ImpulseConservesMomentum | src/utils/index.ts:48-67 | total momentum m1·v1 + m2·v2 is unchanged |
| Contact.EqualMassElasticExchange | src/utils/index.ts:48-67 | equal masses and elasticity one swap their normal velocity components |
| Contact.CoincidentCentresImpulse | src/utils/index.ts:48-67 | with coincident centres the normal is zero and the velocities are unchanged |
| Contact.WallPenetration | src/utils/index.ts:37-44 | a centre on the closest point is not moved |
| Contact.WallPenetrationTouches | src/utils/index.ts:37-44 | afterwards the centre is exactly one radius from the closest point, along the old direction from it |
| Contact.WallImpulse | src/utils/index.ts:69-75 | the velocity is reflected along the unit vector from the closest point to the centre; unchanged when that vector is zero |
| Contact.ReflectAlong | src/utils/index.ts:71-74 | the wall reflection along a normal: along a unit normal the normal velocity becomes −elasticity times itself (`ReflectionReverses`) and the tangential part is kept (`ReflectionKeepsTangent`) |
| Contact.ReflectionReverses | src/utils/index.ts:69-75 | the new normal velocity is −elasticity times the old (zero for elasticity 0) |
| Contact.ReflectionKeepsTangent | src/utils/index.ts:69-75 | components perpendicular to the normal are unchanged |
| Contact.WallImpulseReflects | src/utils/index.ts:69-75 | for a centre off the closest point: the normal component is reversed and scaled, the tangential one kept |
| Balls.Ball.constructor | src/utils/Ball.ts:27-48 | the defaults (mass 1, red, not a player, zero velocity and acceleration, speed 0.05, friction 0.01, elasticity 1) and the radius raised to 10 |
| Balls.Ball.InverseMass | src/utils/Ball.ts:50-53 | zero for a zero mass, otherwise the reciprocal |
| Balls.Ball.Reposition | src/utils/Ball.ts:117-122 | semi-implicit Euler: the new acceleration is the thrust, the velocity gains it and is damped, the position advances by the new velocity; every ball it moves keeps its radius invariant `Valid()` |
| Balls.Thrust | src/utils/Ball.ts:118 | the acceleration rescaled to length one times the speed, also physics-objects/Ball.ts:120: a zero acceleration stays zero, any other has length the absolute value of the speed (`ThrustLength`) |
| Balls.ThrustLength | src/utils/Ball.ts:118 | a zero acceleration stays zero; any other becomes a vector of length abs(speed) |
| Balls.IsColliding | src/utils/Ball.ts:125-127 | true exactly when the radii sum is positive and the squared centre distance is below its square |
| Balls.ResolvePenetration | src/utils/Ball.ts:129-140 | only the two positions change, to the penetration shifts of `Contact.BallPenetration`; every ball it moves keeps its radius invariant `Valid()` |
| Balls.ResolveCollision | src/utils/Ball.ts:142-159 | only the two velocities change, to the impulse response of `Contact.BallImpulse`; every ball it moves keeps its radius invariant `Valid()` |
| PhysicsBalls.Ball.constructor | src/utils/physics-objects/Ball.ts:27-48 | the same defaults as the plain ball, radius raised to 10 |
| PhysicsBalls.Ball.InverseMass | src/utils/physics-objects/Ball.ts:50-53 | zero for a zero mass, otherwise the reciprocal |
| PhysicsBalls.Ball.Reposition | src/utils/physics-objects/Ball.ts:119-128 | the plain ball's step, then gravity (0, 0.01) added to the velocity and the position advanced a second time; every ball it moves keeps its radius invariant `Valid()` |
| Capsules.Capsule.constructor | src/utils/physics-objects/Capsule.ts:19-47 | the capsule shape holds; centre at the midpoint; length the endpoint distance; initial direction the unit from start to end, `direction` its opposite; the defaults |
| Capsules.InitialShape | src/utils/physics-objects/Capsule.ts:37-47 | the constructor's endpoints, midpoint, length and initial direction form a capsule shape |
| Capsules.ShapeKeepsLength | src/utils/physics-objects/Capsule.ts:40-41 | in any capsule shape the endpoints are `length` apart and the position is their midpoint |
| Capsules.Capsule.Reposition | src/utils/physics-objects/Capsule.ts:84-103 | keeps the capsule shape; translates like a ball; turns by the rotation speed; rebuilds the endpoints around the new centre |
| Capsules.Capsule.Translate | src/utils/physics-objects/Capsule.ts:85-88 | thrust along the unit of the acceleration, damping, advance by the new velocity |
| Capsules.Capsule.Turn | src/utils/physics-objects/Capsule.ts:90-102 | the angle advances, the rotation speed is damped, the direction is the turned initial direction, and the shape holds again |
| Capsules.Damped | src/utils/physics-objects/Capsule.ts:91 | for a friction between 0 and 1 the rotation speed does not grow in size |
| Capsules.TurnedDirection | src/utils/physics-objects/Capsule.ts:93-95 | the rotation matrix times the initial direction is the rotation applied to it |
| Capsules.RebuiltKeepsShape | src/utils/physics-objects/Capsule.ts:93-102 | endpoints rebuilt around any centre from the turned direction form a capsule of the same length |
| Capsules.EndpointsAroundCentre | src/utils/physics-objects/Capsule.ts:97-102 | the rebuilt endpoints sit symmetrically about the centre, `length` times the direction apart |
| Collisions.FindClosestPoint | src/utils/index.ts:78-88 | a degenerate wall's closest point is its start |
| Collisions.EndProjections | src/utils/index.ts:79-83 | the two tests compare −c and c − length with zero, c being the projection of the centre onto the wall |
| Collisions.ClosestPointOnSegment | src/utils/index.ts:78-88 | the closest point is the clamped projection: the start before the wall, the end beyond it, the perpendicular foot in between |
| Collisions.ClosestPointIsNearest | src/utils/index.ts:78-88 | no point of the wall is closer to the centre than the closest point |
| Collisions.Touching | src/utils/index.ts:16-17 | true exactly when the radius is non-negative and the squared distance is at most its square |
| Collisions.IsColliding | src/utils/index.ts:11-18 | against a ball: strict overlap of the radii sum; against a wall: the closest point within the radius |
| Collisions.WallContactIsReach | src/utils/index.ts:16-17 | a ball touches a wall exactly when some point of the wall is within its radius |
| Collisions.ResolvePenetration | src/utils/index.ts:20-45 | against a ball: both positions shift as in `Contact.BallPenetration`; against a wall: the ball moves as in `Contact.WallPenetration`; nothing else changes; every ball it moves keeps its radius invariant `Valid()` |
| Collisions.ResolveCollision | src/utils/index.ts:47-76 | against a ball: the impulse response of `Contact.BallImpulse`; against a wall: the reflection of `Contact.WallImpulse`; nothing else changes; every ball it moves keeps its radius invariant `Valid()` |

## Left out

- `draw`, `drawDebug` and `drawVector` of every class: canvas output, no state change.
- `randomInt` in `src/utils/index.ts`: randomness.
- `Capsule.initialAngle`: it serves drawing only, and it calls `cross`, which `Vector` does not define.
- `Capsule.applyInput` and `src/composables/useInputs.ts`: keyboard, mouse and gamepad input. Inputs appear only as the acceleration and rotation speed a tick starts with.
- `vite.config.ts`: build configuration.
- IEEE-754 rounding, infinities and NaN: numbers are reals.
- `Math.sqrt`, `Math.sin`, `Math.cos`: these are a parameter constrained by their laws (`Numerics.Math.Valid`), not computed.
- Vectors.Vec.Divide: requires a nonzero divisor; the source produces infinities or NaN there.
- Contact.BallPenetration: requires a nonzero total inverse mass, as do `Balls.ResolvePenetration` and `Collisions.ResolvePenetration` in the ball branch. The source divides by that total without a guard and would produce NaN positions.
- Aliasing of vector objects between bodies: body fields hold vector values. The kernel always assigns freshly built vectors, so no body can observe another body's vector changing. The input layer does write `ball.acceleration.x` and `.y` in place (useInputs.ts:24-30). That is harmless only because every ball owns its acceleration object and `reposition` replaces it with a fresh one.
- Matrices.Matrix.GenerateMatrix: the grid is a fresh two-dimensional array of the current shape, where the source refills nested JavaScript arrays row by row. Dimensions are natural numbers.
- Matrices.Matrix.MultiplyVector: requires at least a 2x2 grid. With fewer than two rows the source indexes `undefined` (`this.data[1][0]`) and throws a TypeError; with fewer than two columns it returns a vector holding NaN.
- Capsules.Capsule.Reposition: split into `Translate` and `Turn`. The order of the field updates within a tick is not modelled, only the state after it.
- Collisions.FindClosestPoint: takes the ball's position rather than the ball, the only field the source reads. Its own contract covers the degenerate wall only; the other branches are stated by `ClosestPointOnSegment`.
- Vectors.Vector.Limit: the as-written method is kept. Nothing in the kernel calls `limit`.

## Findings

| source | as written | input that shows it | evidently intended | confidence | as-written member | corrected member |
|---|---|---|---|---|---|---|
| src/utils/Vector.ts:55-60 | `limit` calls `setMagnitude`, which builds a new vector, discards it and returns the unchanged receiver | the vector (3, 4) with maximum 1 comes back as (3, 4), magnitude 5 | a vector longer than the maximum is shortened to that magnitude along its own direction | high; not executed | Vectors.Vector.Limit, Vectors.LimitCounterexample | Vectors.Vec.Limit |
